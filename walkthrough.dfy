/** A whole exam run through the session's handlers, from a fresh screen to
    the graded result. */
module Walkthrough {
  import opened Config
  import Drawing
  import Grading
  import opened Session

  /** The sheet that answers only question 1, with "foo", scores nothing. */
  lemma FooScoresNothing()
    ensures Grading.Score(QuestionConfig(), map[1 := Text("foo")]) == 0
  {
    var qs, ua := QuestionConfig(), map[1 := Text("foo")];
    forall i | 0 <= i < |qs| ensures !Grading.IsCorrect(qs[i], ua) {
      if i == 0 {
        assert qs[0].correctAnswer == CorrectAnswers()[0] == Text(SampleAnswer);
      }
    }
    Grading.NothingRightScoresZero(qs, ua);
  }

  /** A full hour of ticks brings the clock to zero without ending the
      exam; the tick after that ends it with the answers as they stand. */
  method RunOutTheClock(s: ExamSession)
    requires s.Valid() && s.phase == Active && s.timeLeft == TimeLimitMinutes * 60
    modifies s
    ensures s.Valid() && s.timeLeft == 0 && s.phase == Finished(old(s.answers))
  {
    for k := 0 to 3600
      invariant s.Valid() && s.phase == Active
      invariant s.timeLeft == 3600 - k && s.answers == old(s.answers)
    {
      s.Tick();
    }
    s.Tick();
  }

  /** One pointer drag from `p` to `q`: the stroke is committed to the
      current question, whose redo stack is emptied. */
  method Drag(s: ExamSession, p: Drawing.Point, q: Drawing.Point)
    requires s.Valid() && s.phase == Active
    modifies s`isDrawing, s`currentStroke, s`drawings, s`redoStack
    ensures s.Valid() && !s.isDrawing && s.currentStroke == []
    ensures Drawing.Committed(s.Canvas(), s.CurrentId()) ==
      Drawing.Committed(old(s.Canvas()), s.CurrentId()) + [Drawing.Stroke(s.tool, s.color, [p, q])]
    ensures Drawing.Undone(s.Canvas(), s.CurrentId()) == []
    ensures forall k :: k != s.CurrentId() ==>
      Drawing.Committed(s.Canvas(), k) == Drawing.Committed(old(s.Canvas()), k) &&
      Drawing.Undone(s.Canvas(), k) == Drawing.Undone(old(s.Canvas()), k)
  {
    ghost var before := s.Canvas();
    s.StartDraw(p);
    s.MoveDraw(q);
    assert s.isDrawing && s.currentStroke == [p, q];
    s.EndDraw();
    assert s.Canvas() == Drawing.Commit(before, s.CurrentId(), Drawing.Stroke(s.tool, s.color, [p, q]));
  }

  /** Draw two strokes on a question with none: both are committed. */
  method DrawTwoStrokes(s: ExamSession)
    requires s.Valid() && s.phase == Active && !s.isDrawing
    requires Drawing.Committed(s.Canvas(), s.CurrentId()) == []
    modifies s
    ensures s.Valid() && s.phase == Active && s.currentIndex == old(s.currentIndex) && !s.isDrawing
    ensures s.answers == old(s.answers) && s.timeLeft == old(s.timeLeft)
    ensures |Drawing.Committed(s.Canvas(), s.CurrentId())| == 2
  {
    Drag(s, Drawing.Point(0, 0), Drawing.Point(5, 5));
    Drag(s, Drawing.Point(1, 1), Drawing.Point(1, 4));
  }

  /** Undo one of two strokes and draw a new one: two strokes again, and the
      new stroke has wiped the redo stack. */
  method UndoAndRedraw(s: ExamSession)
    requires s.Valid() && s.phase == Active && !s.isDrawing
    requires |Drawing.Committed(s.Canvas(), s.CurrentId())| == 2
    modifies s
    ensures s.Valid() && s.phase == Active && s.currentIndex == old(s.currentIndex)
    ensures s.answers == old(s.answers) && s.timeLeft == old(s.timeLeft)
    ensures |Drawing.Committed(s.Canvas(), s.CurrentId())| == 2
    ensures Drawing.Undone(s.Canvas(), s.CurrentId()) == []
  {
    s.Undo();
    Drag(s, Drawing.Point(2, 2), Drawing.Point(6, 2));
  }

  /** Answer question 1 with "foo" and submit (it locks and moves on to
      question 2); draw two strokes there, undo one, draw another; then let
      the clock run out. Question 2 keeps two strokes and no redo, the
      hour's 3600 ticks reach zero, the next tick ends the exam with only
      question 1's answer, and grading gives 0 points. */
  method ExamWalkthrough() returns (committed: nat, undone: nat, snapshot: map<QuestionId, Answer>, score: int)
    ensures committed == 2 && undone == 0
    ensures snapshot == map[1 := Text("foo")]
    ensures score == 0
  {
    var s := new ExamSession();
    s.HandleAnswerChange(Text("foo"));
    s.SubmitAnswer();
    assert s.CurrentId() == 2 && 1 in s.locked;

    DrawTwoStrokes(s);
    UndoAndRedraw(s);
    committed := |Drawing.Committed(s.Canvas(), 2)|;
    undone := |Drawing.Undone(s.Canvas(), 2)|;

    assert s.answers == map[1 := Text("foo")];
    RunOutTheClock(s);
    snapshot := s.phase.snapshot;

    var rows;
    rows, score := Grading.Grade(QuestionConfig(), snapshot);
    FooScoresNothing();
  }
}
