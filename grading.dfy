/** The result screen's grading: one row per question and the total of the
    points of the questions answered exactly right. */
module Grading {
  import opened Config

  /** One line of the result table. */
  datatype GradeRow = GradeRow(id: QuestionId, userAns: string, correctAns: string, isCorrect: bool)

  const Unanswered: string := "未回答"

  /** `userAns === q.correctAnswer`: strict equality, so a missing answer or
      one of the other kind is never correct. */
  predicate IsCorrect(q: Question, userAnswers: map<QuestionId, Answer>) {
    q.id in userAnswers && userAnswers[q.id] == q.correctAnswer
  }

  /** The sum of the points of the questions. */
  function SumPoints(qs: seq<Question>): int {
    if qs == [] then 0 else SumPoints(qs[..|qs| - 1]) + qs[|qs| - 1].points
  }

  /** The questions answered right, in exam order. */
  function CorrectQuestions(qs: seq<Question>, userAnswers: map<QuestionId, Answer>): (r: seq<Question>)
    ensures forall q :: q in r <==> q in qs && IsCorrect(q, userAnswers)
  {
    if qs == [] then []
    else
      var last := qs[|qs| - 1];
      CorrectQuestions(qs[..|qs| - 1], userAnswers) + (if IsCorrect(last, userAnswers) then [last] else [])
  }

  /** The score the loop accumulates, question by question. */
  function Score(qs: seq<Question>, userAnswers: map<QuestionId, Answer>): int {
    if qs == [] then 0
    else
      var last := qs[|qs| - 1];
      Score(qs[..|qs| - 1], userAnswers) + (if IsCorrect(last, userAnswers) then last.points else 0)
  }

  predicate NonNegativePoints(qs: seq<Question>) {
    forall i :: 0 <= i < |qs| ==> qs[i].points >= 0
  }

  predicate PositivePoints(qs: seq<Question>) {
    forall i :: 0 <= i < |qs| ==> qs[i].points > 0
  }

  /** The score is the sum of the points of exactly the correctly answered questions. */
  lemma {:induction false} ScoreIsPointsOfCorrect(qs: seq<Question>, userAnswers: map<QuestionId, Answer>)
    ensures Score(qs, userAnswers) == SumPoints(CorrectQuestions(qs, userAnswers))
    decreases |qs|
  {
    if qs != [] {
      var front, last := qs[..|qs| - 1], qs[|qs| - 1];
      ScoreIsPointsOfCorrect(front, userAnswers);
      if IsCorrect(last, userAnswers) {
        var c := CorrectQuestions(front, userAnswers);
        assert (c + [last])[..|c + [last]| - 1] == c;
      } else {
        var c := CorrectQuestions(front, userAnswers);
        assert CorrectQuestions(qs, userAnswers) == c + [] == c;
      }
    }
  }

  /** With no negative points the score lies between 0 and the sum of all points. */
  lemma {:induction false} ScoreBounds(qs: seq<Question>, userAnswers: map<QuestionId, Answer>)
    requires NonNegativePoints(qs)
    ensures 0 <= Score(qs, userAnswers) <= SumPoints(qs)
    decreases |qs|
  {
    if qs != [] {
      ScoreBounds(qs[..|qs| - 1], userAnswers);
    }
  }

  /** With positive points the score is full exactly when every question
      is answered right. */
  lemma {:induction false} FullScoreIffAllCorrect(qs: seq<Question>, userAnswers: map<QuestionId, Answer>)
    requires PositivePoints(qs)
    ensures Score(qs, userAnswers) == SumPoints(qs) <==> forall i :: 0 <= i < |qs| ==> IsCorrect(qs[i], userAnswers)
    decreases |qs|
  {
    if qs != [] {
      var front := qs[..|qs| - 1];
      FullScoreIffAllCorrect(front, userAnswers);
      ScoreBounds(front, userAnswers);
      if forall i :: 0 <= i < |qs| ==> IsCorrect(qs[i], userAnswers) {
        assert forall i :: 0 <= i < |front| ==> IsCorrect(front[i], userAnswers) by {
          forall i | 0 <= i < |front| ensures IsCorrect(front[i], userAnswers) {
            assert front[i] == qs[i];
          }
        }
      } else {
        var i :| 0 <= i < |qs| && !IsCorrect(qs[i], userAnswers);
        if i < |front| {
          assert front[i] == qs[i];
        }
      }
    }
  }

  /** A sheet with no right answer scores nothing; an empty sheet is one. */
  lemma {:induction false} NothingRightScoresZero(qs: seq<Question>, userAnswers: map<QuestionId, Answer>)
    requires userAnswers == map[] || forall i :: 0 <= i < |qs| ==> !IsCorrect(qs[i], userAnswers)
    ensures Score(qs, userAnswers) == 0
    decreases |qs|
  {
    if qs != [] {
      var front := qs[..|qs| - 1];
      assert forall i :: 0 <= i < |front| ==> front[i] == qs[i];
      NothingRightScoresZero(front, userAnswers);
    }
  }

  lemma {:induction false} SumPointsUniform(qs: seq<Question>, p: int)
    requires forall i :: 0 <= i < |qs| ==> qs[i].points == p
    ensures SumPoints(qs) == p * |qs|
    decreases |qs|
  {
    if qs != [] {
      SumPointsUniform(qs[..|qs| - 1], p);
    }
  }

  /** For the configured exam the score is between 0 and the 100 points the
      result screen displays as the maximum, two for each right answer. */
  lemma ConfiguredScore(userAnswers: map<QuestionId, Answer>)
    ensures SumPoints(QuestionConfig()) == 100
    ensures 0 <= Score(QuestionConfig(), userAnswers) <= 100
    ensures Score(QuestionConfig(), userAnswers) == 2 * |CorrectQuestions(QuestionConfig(), userAnswers)|
  {
    var qs := QuestionConfig();
    SumPointsUniform(qs, PointsPerQuestion);
    ScoreBounds(qs, userAnswers);
    ScoreIsPointsOfCorrect(qs, userAnswers);
    var c := CorrectQuestions(qs, userAnswers);
    assert forall i :: 0 <= i < |c| ==> c[i].points == PointsPerQuestion by {
      forall i | 0 <= i < |c| ensures c[i].points == PointsPerQuestion {
        assert c[i] in c;
      }
    }
    SumPointsUniform(c, PointsPerQuestion);
  }

  /** The texts of one result row. */
  function RowOf(q: Question, userAnswers: map<QuestionId, Answer>): (row: GradeRow)
    ensures row.id == q.id && row.isCorrect == IsCorrect(q, userAnswers)
    ensures q.id !in userAnswers ==> row.userAns == Unanswered
  {
    var answered := q.id in userAnswers;
    if q.kind == SingleChoice then
      GradeRow(q.id,
        if answered then ChoiceMark + OptionLabel(q.options, userAnswers[q.id]) else Unanswered,
        ChoiceMark + OptionLabel(q.options, q.correctAnswer),
        IsCorrect(q, userAnswers))
    else
      GradeRow(q.id,
        if answered && Truthy(userAnswers[q.id]) then Shown(userAnswers[q.id]) else Unanswered,
        Shown(q.correctAnswer),
        IsCorrect(q, userAnswers))
  }

  /** What a result row shows: the chosen option's label behind the mark, or
      the typed text, or `未回答` for a missing or empty text; the key column
      shows the key's option label behind the mark, or the key text. */
  lemma RowShows(q: Question, userAnswers: map<QuestionId, Answer>)
    requires WellFormedQuestion(q)
    ensures q.kind == SingleChoice ==>
      RowOf(q, userAnswers).correctAns == ChoiceMark + q.options[q.correctAnswer.index]
    ensures q.kind == FreeText ==> RowOf(q, userAnswers).correctAns == q.correctAnswer.text
    ensures q.kind == SingleChoice && q.id in userAnswers && userAnswers[q.id].Choice? &&
            userAnswers[q.id].index < |q.options| ==>
      RowOf(q, userAnswers).userAns == ChoiceMark + q.options[userAnswers[q.id].index]
    ensures q.kind == FreeText && q.id in userAnswers && userAnswers[q.id].Text? ==>
      RowOf(q, userAnswers).userAns ==
        (if userAnswers[q.id].text == "" then Unanswered else userAnswers[q.id].text)
  {
  }

  /** The grading `map` with its running `totalScore`. */
  method Grade(questions: seq<Question>, userAnswers: map<QuestionId, Answer>)
    returns (grading: seq<GradeRow>, totalScore: int)
    ensures |grading| == |questions|
    ensures forall i :: 0 <= i < |questions| ==> grading[i] == RowOf(questions[i], userAnswers)
    ensures totalScore == Score(questions, userAnswers)
  {
    totalScore := 0;
    grading := [];
    for i := 0 to |questions|
      invariant |grading| == i
      invariant forall j :: 0 <= j < i ==> grading[j] == RowOf(questions[j], userAnswers)
      invariant totalScore == Score(questions[..i], userAnswers)
    {
      var q := questions[i];
      assert questions[..i + 1][..i] == questions[..i];
      var isCorrect := q.id in userAnswers && userAnswers[q.id] == q.correctAnswer;
      if isCorrect {
        totalScore := totalScore + q.points;
      }
      grading := grading + [RowOf(q, userAnswers)];
    }
    assert questions[..|questions|] == questions;
  }
}
