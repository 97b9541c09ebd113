/** The autograding validators: `validateAutograding` and
    `validateProductiveAutograding` report no errors exactly when the rules
    below hold. A property the rules do not list is accepted whatever it
    holds; a listed property that is absent is checked as `undefined`. The
    shape of the error tree is not modelled, only whether there is one. */
module Validator {
  import opened Wrappers
  import opened Text
  import opened Json

  /** `isPositiveInteger`: `Number.isInteger(v) && v >= 0`; nothing but a
      number passes `Number.isInteger`. */
  predicate IsPositiveInteger(v: Option<Json>) {
    v.Some? && v.value.JNum? && IsNatNumber(v.value.n)
  }

  /** Every integer from 0 up passes, and no negative integer does. */
  lemma IntegersAccepted(n: int)
    ensures IsPositiveInteger(Some(JNum(n as real))) <==> n >= 0
  {
  }

  /** A number with a fractional part fails, as does anything that is not a
      number. */
  lemma NonIntegersRejected(v: Option<Json>)
    requires v.Some? ==> (v.value.JNum? ==> v.value.n.Floor as real != v.value.n)
    ensures !IsPositiveInteger(v)
  {
  }

  /** `\w{k}`. */
  predicate WordRun(s: string) {
    forall i | 0 <= i < |s| :: IsWordChar(s[i])
  }

  /** `^\w{8}-\w{4}-\w{4}-\w{4}-\w{12}$`, group by group. */
  predicate UuidShape(s: string) {
    && |s| == 36
    && WordRun(s[0..8]) && s[8] == '-'
    && WordRun(s[9..13]) && s[13] == '-'
    && WordRun(s[14..18]) && s[18] == '-'
    && WordRun(s[19..23]) && s[23] == '-'
    && WordRun(s[24..36])
  }

  /** The positions of the four dashes. */
  predicate IsDashPosition(i: int) { i == 8 || i == 13 || i == 18 || i == 23 }

  /** The pattern read position by position: 36 characters, dashes at the
      four group boundaries and word characters everywhere else. */
  lemma UuidShapeIff(s: string)
    ensures UuidShape(s) <==>
      |s| == 36 && forall i | 0 <= i < 36 :: if IsDashPosition(i) then s[i] == '-' else IsWordChar(s[i])
  {
    if |s| == 36 && forall i | 0 <= i < 36 :: if IsDashPosition(i) then s[i] == '-' else IsWordChar(s[i]) {
      assert WordRun(s[0..8]) by { forall i | 0 <= i < 8 ensures IsWordChar(s[0..8][i]) { assert !IsDashPosition(i); } }
      assert WordRun(s[9..13]) by { forall i | 0 <= i < 4 ensures IsWordChar(s[9..13][i]) { assert !IsDashPosition(9 + i); } }
      assert WordRun(s[14..18]) by { forall i | 0 <= i < 4 ensures IsWordChar(s[14..18][i]) { assert !IsDashPosition(14 + i); } }
      assert WordRun(s[19..23]) by { forall i | 0 <= i < 4 ensures IsWordChar(s[19..23][i]) { assert !IsDashPosition(19 + i); } }
      assert WordRun(s[24..36]) by { forall i | 0 <= i < 12 ensures IsWordChar(s[24..36][i]) { assert !IsDashPosition(24 + i); } }
    }
    if UuidShape(s) {
      forall i | 0 <= i < 36 ensures if IsDashPosition(i) then s[i] == '-' else IsWordChar(s[i]) {
        if i < 8 { assert s[i] == s[0..8][i]; }
        else if 8 < i < 13 { assert s[i] == s[9..13][i - 9]; }
        else if 13 < i < 18 { assert s[i] == s[14..18][i - 14]; }
        else if 18 < i < 23 { assert s[i] == s[19..23][i - 19]; }
        else if 23 < i { assert s[i] == s[24..36][i - 24]; }
      }
    }
  }

  /** `R.test(re, v)` converts `v` with `String(v)` first. A string is
      itself; an array is its elements joined by commas, so only a
      one-element array can render as a single group of word characters and
      dashes; `null`, `undefined`, booleans, numbers and objects never
      render as a uuid. */
  predicate RendersUuid(v: Json) {
    match v
    case JStr(s) => UuidShape(s)
    case JArr(items) => |items| == 1 && RendersUuid(items[0])
    case _ => false
  }

  /** `isValidUuid`. */
  predicate IsValidUuid(v: Option<Json>) {
    v.Some? && RendersUuid(v.value)
  }

  /** Whether `String(v)` starts with `\s`. An array renders as its first
      element (with `null` as the empty string) followed by a comma when it
      has more, so it starts with a space only when its first element
      does. `null`, booleans, numbers and objects render without any. */
  predicate StartsWithSpace(v: Json) {
    match v
    case JStr(s) => |s| > 0 && IsSpace(s[0])
    case JArr(items) => |items| > 0 && StartsWithSpace(items[0])
    case _ => false
  }

  /** Whether `String(v)` ends with `\s`, symmetrically. */
  predicate EndsWithSpace(v: Json) {
    match v
    case JStr(s) => |s| > 0 && IsSpace(s[|s| - 1])
    case JArr(items) => |items| > 0 && EndsWithSpace(items[|items| - 1])
    case _ => false
  }

  /** `isTrimmedText`: `String(v)` matches neither `^\s` nor `\s$`.
      `undefined` renders as `"undefined"` and so passes. */
  predicate IsTrimmedText(v: Option<Json>) {
    v.None? || (!StartsWithSpace(v.value) && !EndsWithSpace(v.value))
  }

  /** For text, the regular expression agrees with `trim`: the text passes
      exactly when trimming leaves it unchanged. */
  lemma TrimmedTextIff(s: string)
    ensures IsTrimmedText(Some(JStr(s))) <==> Trim(s) == s
  {
    var starts, ends := |s| > 0 && IsSpace(s[0]), |s| > 0 && IsSpace(s[|s| - 1]);
    assert StartsWithSpace(JStr(s)) == starts;
    assert EndsWithSpace(JStr(s)) == ends;
    assert IsTrimmedText(Some(JStr(s))) == (!starts && !ends);
    TrimFixedIff(s);
  }

  /** `R.is(Boolean)` and `R.is(Number)`. */
  predicate IsBoolean(v: Option<Json>) { v.Some? && v.value.JBool? }
  predicate IsNumber(v: Option<Json>) { v.Some? && v.value.JNum? }

  /** `V.arrayIx(rule)` at a property: an array whose every element
      passes. */
  predicate IsArray(v: Option<Json>) { v.Some? && v.value.JArr? }

  /** The option rule of `choiceRules`; `withScore` selects the rule of the
      entries without `maxScore`, which also needs a numeric `score`. */
  predicate OptionPasses(o: Json, withScore: bool) {
    && o.JObj?
    && IsPositiveInteger(Get(o, "id"))
    && IsBoolean(Get(o, "correct"))
    && (withScore ==> IsNumber(Get(o, "score")))
  }

  predicate OptionsPass(v: Option<Json>, withScore: bool) {
    IsArray(v) && forall i | 0 <= i < |v.value.items| :: OptionPasses(v.value.items[i], withScore)
  }

  predicate ChoicePasses(c: Json, withScore: bool) {
    c.JObj? && OptionsPass(Get(c, "options"), withScore)
  }

  predicate ChoicesPass(v: Option<Json>, withScore: bool) {
    IsArray(v) && forall i | 0 <= i < |v.value.items| :: ChoicePasses(v.value.items[i], withScore)
  }

  /** One entry of `choiceRules`: the case is chosen by `R.has('maxScore')`,
      whatever `maxScore` holds. */
  predicate ChoiceEntryPasses(e: Json) {
    if Has(e, "maxScore") then
      && IsPositiveInteger(Get(e, "maxScore"))
      && IsPositiveInteger(Get(e, "id"))
      && ChoicesPass(Get(e, "choices"), false)
    else
      && e.JObj?
      && IsPositiveInteger(Get(e, "id"))
      && ChoicesPass(Get(e, "choices"), true)
  }

  /** `validateAutograding(data) === undefined`. */
  predicate ValidAutograding(data: Json) {
    data.JArr? && forall i | 0 <= i < |data.items| :: ChoiceEntryPasses(data.items[i])
  }

  /** One correct answer of `productiveRules`. */
  predicate AnswerPasses(a: Json) {
    && a.JObj?
    && (Get(a, "score") == Some(JNull) || IsPositiveInteger(Get(a, "score")))
    && IsTrimmedText(Get(a, "text"))
  }

  predicate AnswersPass(v: Option<Json>) {
    IsArray(v) && forall i | 0 <= i < |v.value.items| :: AnswerPasses(v.value.items[i])
  }

  predicate ProductiveQuestionPasses(q: Json) {
    q.JObj? && IsPositiveInteger(Get(q, "id")) && AnswersPass(Get(q, "correctAnswers"))
  }

  predicate QuestionsPass(v: Option<Json>) {
    IsArray(v) && forall i | 0 <= i < |v.value.items| :: ProductiveQuestionPasses(v.value.items[i])
  }

  predicate ProductiveEntryPasses(e: Json) {
    e.JObj? && IsValidUuid(Get(e, "examUuid")) && QuestionsPass(Get(e, "questions"))
  }

  /** `validateProductiveAutograding(data) === undefined`. */
  predicate ValidProductiveAutograding(data: Json) {
    data.JArr? && forall i | 0 <= i < |data.items| :: ProductiveEntryPasses(data.items[i])
  }

  /** A productive question without an id fails, whatever else it holds. */
  lemma MissingIdFails(fs: seq<Field>)
    requires "id" !in Keys(fs)
    ensures !ProductiveQuestionPasses(JObj(fs))
  {
  }

  /** An answer text with a leading or trailing blank fails. */
  lemma UntrimmedAnswerFails(a: seq<Field>, s: string)
    requires Lookup(a, "text") == Some(JStr(s))
    requires Trim(s) != s
    ensures !AnswerPasses(JObj(a))
  {
    TrimmedTextIff(s);
  }

  /** Under the rule of entries with `maxScore`, an option's `score` is
      neither needed nor checked: adding one, of any value, does not change
      the option's verdict. */
  lemma OptionScoreIgnored(fs: seq<Field>, score: Json)
    ensures OptionPasses(JObj(fs + [Field("score", score)]), false) == OptionPasses(JObj(fs), false)
  {
    LookupAppendOther(fs, Field("score", score), "id");
    LookupAppendOther(fs, Field("score", score), "correct");
  }

  /** `R.has` looks at the key, not at the value: an entry whose `maxScore`
      is 0 (falsy) still takes the rule with `maxScore`, so it passes with
      options that carry no score at all. */
  lemma MaxScoreZeroNeedsNoScores(e: Json)
    requires Get(e, "maxScore") == Some(JNum(0.0))
    requires IsPositiveInteger(Get(e, "id")) && ChoicesPass(Get(e, "choices"), false)
    ensures ChoiceEntryPasses(e)
  {
    assert Has(e, "maxScore");
    assert IsPositiveInteger(Get(e, "maxScore")) by { assert (0.0).Floor == 0; }
  }

  /** Without a `maxScore` property, a single option lacking a numeric
      `score` fails the whole entry. */
  lemma ScoreNeededWithoutMaxScore(e: Json, cs: seq<Json>, i: nat, os: seq<Json>, j: nat)
    requires !Has(e, "maxScore")
    requires Get(e, "choices") == Some(JArr(cs)) && i < |cs|
    requires Get(cs[i], "options") == Some(JArr(os)) && j < |os|
    requires !IsNumber(Get(os[j], "score"))
    ensures !ChoiceEntryPasses(e)
  {
    assert ChoiceEntryPasses(e) ==> ChoicePasses(cs[i], true);
    assert ChoicePasses(cs[i], true) ==> OptionPasses(os[j], true);
  }

  /** A property the entry rule does not list may be added with any value
      without changing the verdict. */
  lemma {:induction false} ExtraPropertyAccepted(fs: seq<Field>, f: Field)
    requires f.key != "maxScore" && f.key != "id" && f.key != "choices"
    ensures ChoiceEntryPasses(JObj(fs + [f])) == ChoiceEntryPasses(JObj(fs))
  {
    LookupAppendOther(fs, f, "maxScore");
    LookupAppendOther(fs, f, "id");
    LookupAppendOther(fs, f, "choices");
  }

  /** The same for a productive answer. */
  lemma {:induction false} ExtraAnswerPropertyAccepted(fs: seq<Field>, f: Field)
    requires f.key != "score" && f.key != "text"
    ensures AnswerPasses(JObj(fs + [f])) == AnswerPasses(JObj(fs))
  {
    LookupAppendOther(fs, f, "score");
    LookupAppendOther(fs, f, "text");
  }
}
