/** The exam screen as one session object: each piece of screen state is a
    field, and each handler is a method that updates those fields. */
module Session {
  import opened Wrappers
  import opened Config
  import Clock
  import Navigation
  import Answers
  import Drawing

  /** The lifecycle of the screen. A finished session holds the answers it
      handed over for grading; no handler runs after that. */
  datatype Phase = Active | Finished(snapshot: map<QuestionId, Answer>)

  class ExamSession {
    var currentIndex: int
    var answers: map<QuestionId, Answer>
    var locked: set<QuestionId>
    var bookmarks: map<QuestionId, bool>
    var timeLeft: int
    var drawings: map<QuestionId, seq<Drawing.Stroke>>
    var redoStack: map<QuestionId, seq<Drawing.Stroke>>
    var tool: Drawing.Tool
    var color: Drawing.Color
    var isDrawing: bool
    var currentStroke: seq<Drawing.Point>
    var phase: Phase

    /** The index stays on a question, the countdown never goes below zero,
        a stroke is in progress exactly when points are being collected, and
        every stored stroke has a point. */
    ghost predicate Valid()
      reads this
    {
      0 <= currentIndex < TotalQuestions &&
      timeLeft >= 0 &&
      (isDrawing ==> |currentStroke| >= 1) &&
      (!isDrawing ==> currentStroke == []) &&
      Drawing.WellFormed(Canvas())
    }

    /** `currentQ.id`. */
    function CurrentId(): (id: QuestionId)
      reads this`currentIndex
      requires 0 <= currentIndex < TotalQuestions
      ensures id == currentIndex + 1
    {
      QuestionConfig()[currentIndex].id
    }

    function Sheet(): Answers.Ledger
      reads this`answers, this`locked
    {
      Answers.Ledger(answers, locked)
    }

    function Canvas(): Drawing.Annotations
      reads this`drawings, this`redoStack
    {
      Drawing.Annotations(drawings, redoStack)
    }

    /** What `renderCanvas` draws: the current question's committed strokes,
        then the stroke in progress, if any. */
    function ComposedStrokes(): seq<Drawing.Stroke>
      reads this
      requires 0 <= currentIndex < TotalQuestions
    {
      Drawing.Committed(Canvas(), CurrentId()) +
      (if isDrawing then [Drawing.Stroke(tool, color, currentStroke)] else [])
    }

    /** A fresh exam: first question, the full hour on the clock, nothing
        answered, locked, bookmarked or drawn, pencil in black. */
    constructor ()
      ensures Valid() && phase == Active
      ensures currentIndex == 0 && timeLeft == TimeLimitMinutes * 60
      ensures answers == map[] && locked == {} && bookmarks == map[]
      ensures drawings == map[] && redoStack == map[]
      ensures tool == Drawing.Pencil && color == Drawing.Black
      ensures !isDrawing && currentStroke == []
    {
      currentIndex := 0;
      answers := map[];
      locked := {};
      bookmarks := map[];
      timeLeft := TimeLimitMinutes * 60;
      drawings := map[];
      redoStack := map[];
      tool := Drawing.Pencil;
      color := Drawing.Black;
      isDrawing := false;
      currentStroke := [];
      phase := Active;
    }

    /** One run of the interval callback. At zero it ends the exam with the
        current answers; once the exam has ended the timer is gone and a tick
        changes nothing. */
    method Tick()
      requires Valid()
      modifies this`timeLeft, this`phase
      ensures Valid()
      ensures old(phase) == Active ==>
        timeLeft == Clock.Tick(old(timeLeft)).next &&
        phase == (if Clock.Tick(old(timeLeft)).finishes then Finished(answers) else Active)
      ensures old(phase) != Active ==> timeLeft == old(timeLeft) && phase == old(phase)
    {
      if phase == Active {
        var t := Clock.Tick(timeLeft);
        timeLeft := t.next;
        if t.finishes {
          phase := Finished(answers);
        }
      }
    }

    /** Changing the question drops a stroke still being drawn, so that it
        cannot land on another question; staying put keeps it. */
    method MoveTo(j: int)
      requires Valid() && 0 <= j < TotalQuestions
      modifies this`currentIndex, this`isDrawing, this`currentStroke
      ensures Valid() && currentIndex == j
      ensures j != old(currentIndex) ==> !isDrawing && currentStroke == []
      ensures j == old(currentIndex) ==> isDrawing == old(isDrawing) && currentStroke == old(currentStroke)
    {
      if j != currentIndex {
        currentIndex := j;
        isDrawing := false;
        currentStroke := [];
      }
    }

    /** `handleAnswerChange`: ignored while the current answer is locked. */
    method HandleAnswerChange(val: Answer)
      requires Valid() && phase == Active
      modifies this`answers
      ensures Valid()
      ensures Sheet() == Answers.Edit(old(Sheet()), CurrentId(), val)
    {
      if CurrentId() !in locked {
        answers := answers[CurrentId() := val];
      }
    }

    /** `submitAnswer`: lock the current answer, then advance (the last
        question wraps round to the first). */
    method SubmitAnswer()
      requires Valid() && phase == Active
      modifies this`locked, this`currentIndex, this`isDrawing, this`currentStroke
      ensures Valid()
      ensures Sheet() == Answers.Lock(old(Sheet()), old(CurrentId()))
      ensures currentIndex == Navigation.AdvanceAfterSubmit(old(currentIndex))
      ensures !isDrawing && currentStroke == []
    {
      locked := locked + {CurrentId()};
      var next := Navigation.AdvanceAfterSubmit(currentIndex);
      assert 0 <= next < TotalQuestions && next != currentIndex;
      MoveTo(next);
    }

    /** `resetAnswer`: unlock the current answer and keep its value. */
    method ResetAnswer()
      requires Valid() && phase == Active
      modifies this`locked
      ensures Valid()
      ensures Sheet() == Answers.Unlock(old(Sheet()), CurrentId())
    {
      locked := locked - {CurrentId()};
    }

    /** `toggleBookmark`. */
    method ToggleBookmark(id: QuestionId)
      requires Valid() && phase == Active
      modifies this`bookmarks
      ensures Valid()
      ensures bookmarks == Answers.Toggle(old(bookmarks), id)
    {
      bookmarks := bookmarks[id := !Answers.Flag(bookmarks, id)];
    }

    /** `navigate`: the arrows and the arrow keys. */
    method Navigate(d: Navigation.Direction)
      requires Valid() && phase == Active
      modifies this`currentIndex, this`isDrawing, this`currentStroke
      ensures Valid()
      ensures currentIndex == Navigation.Navigate(old(currentIndex), d)
      ensures currentIndex == old(currentIndex) ==> isDrawing == old(isDrawing) && currentStroke == old(currentStroke)
      ensures currentIndex != old(currentIndex) ==> !isDrawing && currentStroke == []
    {
      MoveTo(Navigation.Navigate(currentIndex, d));
    }

    /** A click on question `id` in the question list. */
    method JumpTo(id: QuestionId)
      requires Valid() && phase == Active
      requires 1 <= id <= TotalQuestions
      modifies this`currentIndex, this`isDrawing, this`currentStroke
      ensures Valid()
      ensures currentIndex == Navigation.JumpIndex(id) && CurrentId() == id
      ensures currentIndex == old(currentIndex) ==> isDrawing == old(isDrawing) && currentStroke == old(currentStroke)
      ensures currentIndex != old(currentIndex) ==> !isDrawing && currentStroke == []
    {
      MoveTo(Navigation.JumpIndex(id));
    }

    /** The finish button: `handleFinish` behind the confirmation dialog.
        Accepting hands the answers over; cancelling changes nothing. */
    method RequestFinish(confirmed: bool)
      requires Valid() && phase == Active
      modifies this`phase
      ensures Valid()
      ensures phase == if confirmed then Finished(answers) else Active
    {
      if confirmed {
        phase := Finished(answers);
      }
    }

    method SelectTool(t: Drawing.Tool)
      requires Valid() && phase == Active
      modifies this`tool
      ensures Valid() && tool == t
    {
      tool := t;
    }

    method SelectColor(c: Drawing.Color)
      requires Valid() && phase == Active
      modifies this`color
      ensures Valid() && color == c
    {
      color := c;
    }

    /** `startDraw`: a new stroke holding the pointer position. */
    method StartDraw(p: Drawing.Point)
      requires Valid() && phase == Active
      modifies this`isDrawing, this`currentStroke
      ensures Valid()
      ensures isDrawing && currentStroke == [p]
    {
      isDrawing := true;
      currentStroke := [p];
    }

    /** `moveDraw`: points are collected only while a stroke is in progress. */
    method MoveDraw(p: Drawing.Point)
      requires Valid() && phase == Active
      modifies this`currentStroke
      ensures Valid()
      ensures currentStroke == if isDrawing then old(currentStroke) + [p] else old(currentStroke)
    {
      if isDrawing {
        currentStroke := currentStroke + [p];
      }
    }

    /** `endDraw`: without a stroke in progress nothing happens; otherwise the
        stroke is closed and committed to the current question, whose redo
        stack is dropped, and no other question is touched. */
    method EndDraw()
      requires Valid() && phase == Active
      modifies this`isDrawing, this`currentStroke, this`drawings, this`redoStack
      ensures Valid()
      ensures !isDrawing && currentStroke == []
      ensures !old(isDrawing) ==> Canvas() == old(Canvas())
      ensures old(isDrawing) ==>
        Canvas() == Drawing.Commit(old(Canvas()), CurrentId(), Drawing.Stroke(tool, color, old(currentStroke)))
      ensures |Drawing.Committed(Canvas(), CurrentId())| ==
        |Drawing.Committed(old(Canvas()), CurrentId())| + (if old(isDrawing) then 1 else 0)
    {
      if !isDrawing {
        return;
      }
      isDrawing := false;
      if |currentStroke| > 0 {
        ghost var before := Canvas();
        var newStroke := Drawing.Stroke(tool, color, currentStroke);
        var id := CurrentId();
        drawings := drawings[id := Drawing.History(drawings, id) + [newStroke]];
        redoStack := redoStack - {id};
        assert Canvas() == Drawing.Commit(before, id, newStroke);
      }
      currentStroke := [];
    }

    /** `undo` on the current question. */
    method Undo()
      requires Valid() && phase == Active
      modifies this`drawings, this`redoStack
      ensures Valid()
      ensures Canvas() == Drawing.Undo(old(Canvas()), CurrentId())
    {
      var id := CurrentId();
      var q := Drawing.History(drawings, id);
      if |q| == 0 {
        return;
      }
      ghost var before := Canvas();
      var last := q[|q| - 1];
      redoStack := redoStack[id := Drawing.History(redoStack, id) + [last]];
      drawings := drawings[id := q[..|q| - 1]];
      assert Canvas() == Drawing.Undo(before, id);
    }

    /** `redo` on the current question. */
    method Redo()
      requires Valid() && phase == Active
      modifies this`drawings, this`redoStack
      ensures Valid()
      ensures Canvas() == Drawing.Redo(old(Canvas()), CurrentId())
    {
      var id := CurrentId();
      var q := Drawing.History(redoStack, id);
      if |q| == 0 {
        return;
      }
      ghost var before := Canvas();
      var toRestore := q[|q| - 1];
      drawings := drawings[id := Drawing.History(drawings, id) + [toRestore]];
      redoStack := redoStack[id := q[..|q| - 1]];
      assert Canvas() == Drawing.Redo(before, id);
    }

    /** `clearAll` behind the confirmation dialog: accepting wipes the current
        question's strokes and redo stack; cancelling changes nothing. */
    method ClearAll(confirmed: bool)
      requires Valid() && phase == Active
      modifies this`drawings, this`redoStack
      ensures Valid()
      ensures Canvas() == if confirmed then Drawing.Clear(old(Canvas()), CurrentId()) else old(Canvas())
    {
      if confirmed {
        var id := CurrentId();
        drawings := drawings[id := []];
        redoStack := redoStack - {id};
      }
    }

    /** `renderCanvas`: every committed stroke of the current question and
        the stroke in progress, in that order, each drawn as one command;
        in a valid session no stroke is empty, so none is skipped. */
    method RenderCanvas() returns (plan: seq<Drawing.DrawCmd>)
      requires Valid()
      ensures plan == Drawing.Plan(ComposedStrokes())
      ensures |plan| == |ComposedStrokes()|
      ensures forall i :: 0 <= i < |plan| ==>
        |ComposedStrokes()[i].points| >= 1 && plan[i] == Drawing.CmdOf(ComposedStrokes()[i])
    {
      var id := CurrentId();
      var committed := Drawing.History(drawings, id);
      var inProgress := if isDrawing then Some(Drawing.Stroke(tool, color, currentStroke)) else None;
      assert forall j :: 0 <= j < |committed| ==> |committed[j].points| >= 1 by {
        if id in drawings {
          assert committed == drawings[id];
        }
      }
      plan := Drawing.RenderPlan(committed, inProgress);
      Drawing.CommittedThenInProgress(committed, inProgress);
    }
  }
}
