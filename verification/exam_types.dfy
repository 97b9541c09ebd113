/** The legacy JSON exam: sections of questions, each question tagged by its
    type. Only the fields the autograding transforms read are kept; display
    fields (text, display number, level, restricted media, attachments) are
    carried by the JSON tree, not by these records. */
module ExamTypes {
  import opened Wrappers

  /** An option of a choice or a gap. `correct` may be missing in real data,
      and `score` is optional. */
  datatype ExamOption = ExamOption(id: real, correct: Option<bool>, score: Option<real>)

  /** One choice of a choice group. */
  datatype ExamChoice = ExamChoice(id: real, options: seq<ExamOption>)

  /** Multichoicegap content: plain text, or a gap that has options. */
  datatype GapContent =
    | GapText(text: string)
    | Gap(id: real, options: seq<ExamOption>)

  /** A question, or the audio test a section may also hold. A label with
      restricted media carries an id, a plain label does not. text, subtext
      and multichoicegap always have `maxScore`; a choice group may not (`groupMaxScore`). */
  datatype Question =
    | TextQuestion(id: Option<real>, maxScore: real, correctAnswers: Option<seq<string>>)
    | SubtextQuestion(id: Option<real>, maxScore: real, correctAnswers: Option<seq<string>>)
    | Label(id: Option<real>)
    | ChoiceGroup(id: Option<real>, groupMaxScore: Option<real>, choices: seq<ExamChoice>)
    | MultiChoiceGap(id: Option<real>, maxScore: real, content: seq<GapContent>)
    | AudioTest(file: string)

  datatype Section = Section(questions: seq<Question>)

  datatype ExamContent = ExamContent(sections: seq<Section>)

  /** The `type` tag of a question. */
  function TypeTag(q: Question): (t: string)
    ensures t in {"text", "subtext", "label", "choicegroup", "multichoicegap", "audiotest"}
    ensures t == "choicegroup" <==> q.ChoiceGroup?
    ensures t == "multichoicegap" <==> q.MultiChoiceGap?
    ensures t == "text" || t == "subtext" <==> q.TextQuestion? || q.SubtextQuestion?
  {
    match q
    case TextQuestion(_, _, _) => "text"
    case SubtextQuestion(_, _, _) => "subtext"
    case Label(_) => "label"
    case ChoiceGroup(_, _, _) => "choicegroup"
    case MultiChoiceGap(_, _, _) => "multichoicegap"
    case AudioTest(_) => "audiotest"
  }

  /** `sections.flatMap(x => x.questions)`: every question, section by
      section. */
  function AllQuestions(sections: seq<Section>): (qs: seq<Question>)
    ensures forall s, q | s in sections && q in s.questions :: q in qs
    ensures forall q | q in qs :: exists s | s in sections :: q in s.questions
  {
    if sections == [] then [] else sections[0].questions + AllQuestions(sections[1..])
  }

  /** Flattening respects section order. */
  lemma {:induction false} AllQuestionsAppend(a: seq<Section>, b: seq<Section>)
    ensures AllQuestions(a + b) == AllQuestions(a) + AllQuestions(b)
  {
    if a == [] {
      assert a + b == b;
    } else {
      assert (a + b)[1..] == a[1..] + b;
      AllQuestionsAppend(a[1..], b);
    }
  }
}
