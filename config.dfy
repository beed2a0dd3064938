/** The fixed exam: fifty questions worth two points each, four of them
    single-choice, and the texts the question list and the result table show
    for an answer. */
module Config {
  import opened Wrappers
  import opened Strings

  const TotalQuestions: nat := 50
  const TimeLimitMinutes: nat := 60
  const PointsPerQuestion: int := 2

  /** Question ids run from 1 to TotalQuestions. */
  type QuestionId = int

  /** A free-text answer is the typed string; a choice answer is the index of
      the chosen option. */
  datatype Answer = Text(text: string) | Choice(index: nat)

  datatype QuestionKind = FreeText | SingleChoice

  datatype Question = Question(
    id: QuestionId,
    imagePath: string,
    points: int,
    kind: QuestionKind,
    options: seq<string>,
    correctAnswer: Answer)

  const ChoiceOptions: seq<string> := ["イモ", "チゲ", "ツル", "ユキ"]
  const SampleAnswer: string := "サンプル解答"
  /** The circled-four mark put in front of a choice's label. */
  const ChoiceMark: string := "\U{2463}"
  /** JavaScript's text for a missing array element, `${options[k]}`. */
  const Undefined: string := "undefined"

  predicate IsMultipleChoice(id: QuestionId) {
    id in [11, 12, 13, 50]
  }

  /** The mock answer key: `id % 4` for a choice question, the sample text otherwise. */
  function CorrectAnswers(): (key: seq<Answer>)
    ensures |key| == TotalQuestions
    ensures forall i :: 0 <= i < |key| ==>
      (IsMultipleChoice(i + 1) ==> key[i] == Choice((i + 1) % 4)) &&
      (!IsMultipleChoice(i + 1) ==> key[i] == Text(SampleAnswer))
  {
    seq(TotalQuestions, i requires 0 <= i < TotalQuestions =>
      if IsMultipleChoice(i + 1) then Choice((i + 1) % 4) else Text(SampleAnswer))
  }

  /** The question's image file: the id padded to two digits between the
      fixed prefix and the fixed extension. */
  function ImagePath(id: nat): (p: string)
    ensures |p| >= 23
    ensures p[..16] == "riddle1/riddle1_" && p[|p| - 5..] == ".jfjf"
    ensures p[16..|p| - 5] == PadStart2(NatToString(id))
  {
    "riddle1/riddle1_" + PadStart2(NatToString(id)) + ".jfjf"
  }

  /** Entry `i` of the question table. */
  function MakeQuestion(i: nat): (q: Question)
    requires i < TotalQuestions
    ensures q.id == i + 1 && q.points == PointsPerQuestion && q.imagePath == ImagePath(i + 1)
    ensures q.correctAnswer == CorrectAnswers()[i]
    ensures (q.kind == SingleChoice <==> IsMultipleChoice(i + 1))
    ensures IsMultipleChoice(i + 1) ==> q.options == ChoiceOptions
    ensures WellFormedQuestion(q)
  {
    var id := i + 1;
    Question(
      id, ImagePath(id), PointsPerQuestion,
      if IsMultipleChoice(id) then SingleChoice else FreeText,
      if IsMultipleChoice(id) then ChoiceOptions else [],
      CorrectAnswers()[i])
  }

  /** A question is well formed when a choice question's key is the index
      of one of its options and a free-text question has no options. */
  predicate WellFormedQuestion(q: Question) {
    (q.kind == SingleChoice ==> q.correctAnswer.Choice? && q.correctAnswer.index < |q.options|) &&
    (q.kind == FreeText ==> q.options == [] && q.correctAnswer.Text?)
  }

  /** The question table: ids 1..50 in exam order, two points each, and a
      key that always names an existing option. */
  function QuestionConfig(): (qs: seq<Question>)
    ensures |qs| == TotalQuestions
    ensures forall i :: 0 <= i < |qs| ==>
      qs[i].id == i + 1 && qs[i].points == PointsPerQuestion &&
      (qs[i].kind == SingleChoice <==> IsMultipleChoice(i + 1)) &&
      qs[i].correctAnswer == CorrectAnswers()[i] &&
      (IsMultipleChoice(i + 1) ==> qs[i].options == ChoiceOptions) &&
      WellFormedQuestion(qs[i])
  {
    seq(TotalQuestions, i requires 0 <= i < TotalQuestions => MakeQuestion(i))
  }

  /** JavaScript truthiness of a stored answer: the empty string and the
      index 0 are falsy. */
  predicate Truthy(a: Answer) {
    match a
    case Text(s) => s != ""
    case Choice(k) => k != 0
  }

  /** How React prints a stored answer value. */
  function Shown(a: Answer): string {
    match a
    case Text(s) => s
    case Choice(k) => NatToString(k)
  }

  /** `options[a]`: the label of the chosen option, or "undefined" when the
      value does not index an option. */
  function OptionLabel(options: seq<string>, a: Answer): (r: string)
    ensures a.Choice? && a.index < |options| ==> r == options[a.index]
    ensures !(a.Choice? && a.index < |options|) ==> r == Undefined
  {
    if a.Choice? && a.index < |options| then options[a.index] else Undefined
  }

  /** The answer text of one entry of the question list. */
  function AnswerText(q: Question, isAnswered: bool, userAnswer: Option<Answer>): (r: string)
    ensures !isAnswered || userAnswer == None ==> r == ""
  {
    if !isAnswered then ""
    else if q.kind == SingleChoice && userAnswer.Some? then ChoiceMark + OptionLabel(q.options, userAnswer.value)
    else if userAnswer.Some? && Truthy(userAnswer.value) then Shown(userAnswer.value)
    else ""
  }

  /** What the list shows: nothing until the answer is locked; then the
      chosen option's label behind the mark for a choice question, or the
      typed text for a free-text question. */
  lemma AnswerTextShowsLockedAnswer(q: Question, isAnswered: bool, userAnswer: Option<Answer>)
    requires WellFormedQuestion(q)
    ensures !isAnswered ==> AnswerText(q, isAnswered, userAnswer) == ""
    ensures isAnswered && userAnswer == None ==> AnswerText(q, isAnswered, userAnswer) == ""
    ensures isAnswered && q.kind == SingleChoice && userAnswer.Some? && userAnswer.value.Choice? &&
            userAnswer.value.index < |q.options| ==>
            AnswerText(q, isAnswered, userAnswer) == ChoiceMark + q.options[userAnswer.value.index]
    ensures isAnswered && q.kind == FreeText && userAnswer.Some? && userAnswer.value.Text? ==>
            AnswerText(q, isAnswered, userAnswer) == userAnswer.value.text
  {
  }

  /** The key column of a choice question never shows `undefined`: every
      configured key names one of the four options. */
  lemma KeyLabelsDefined()
    ensures forall i :: 0 <= i < TotalQuestions && IsMultipleChoice(i + 1) ==>
      OptionLabel(QuestionConfig()[i].options, QuestionConfig()[i].correctAnswer) in ChoiceOptions
  {
  }
}
