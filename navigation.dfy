/** Moving between questions: the previous/next arrows, the advance that
    follows a submitted answer, and the jump from the question list. */
module Navigation {
  import opened Config

  datatype Direction = Prev | Next

  /** `navigate`: one step back or forward, refused at either end. */
  function Navigate(index: int, d: Direction): (r: int)
    ensures 0 <= index < TotalQuestions ==> 0 <= r < TotalQuestions
    ensures r == index <==> (d == Prev && index <= 0) || (d == Next && index >= TotalQuestions - 1)
    ensures r != index ==> r == (if d == Prev then index - 1 else index + 1)
  {
    match d
    case Prev => if index > 0 then index - 1 else index
    case Next => if index < TotalQuestions - 1 then index + 1 else index
  }

  /** The advance after `submitAnswer`: from the last question back to the
      first, from any other to the next. */
  function AdvanceAfterSubmit(index: int): (r: int)
    ensures 0 <= index < TotalQuestions ==> r == (index + 1) % TotalQuestions
  {
    if index == TotalQuestions - 1 then 0 else index + 1
  }

  /** The index a question-list entry jumps to. */
  function JumpIndex(id: QuestionId): (r: int)
    requires 1 <= id <= TotalQuestions
    ensures 0 <= r < TotalQuestions && QuestionConfig()[r].id == id
  {
    id - 1
  }

  /** A step forward and a step back undo each other away from the ends. */
  lemma NavigateInverse(index: int)
    requires 0 <= index < TotalQuestions
    ensures index < TotalQuestions - 1 ==> Navigate(Navigate(index, Next), Prev) == index
    ensures index > 0 ==> Navigate(Navigate(index, Prev), Next) == index
  {
  }

  function AdvanceTimes(index: int, k: nat): int
    decreases k
  {
    if k == 0 then index else AdvanceTimes(AdvanceAfterSubmit(index), k - 1)
  }

  /** Submitting answers in a row visits the questions cyclically: `k`
      submits from `index` land on `(index + k) % TotalQuestions`, so
      TotalQuestions submits come back to the start. */
  lemma {:induction false} AdvanceCycles(index: int, k: nat)
    requires 0 <= index < TotalQuestions
    ensures AdvanceTimes(index, k) == (index + k) % TotalQuestions
    ensures k == TotalQuestions ==> AdvanceTimes(index, k) == index
    decreases k
  {
    if k > 0 {
      var next := AdvanceAfterSubmit(index);
      AdvanceCycles(next, k - 1);
      assert (next + (k - 1)) % TotalQuestions == (index + k) % TotalQuestions by {
        ModShift(index, k - 1);
      }
    }
  }

  lemma ModShift(i: int, j: nat)
    requires 0 <= i < TotalQuestions
    ensures ((i + 1) % TotalQuestions + j) % TotalQuestions == (i + 1 + j) % TotalQuestions
  {
    if i + 1 == TotalQuestions {
      assert (i + 1) % TotalQuestions == 0;
      assert (i + 1 + j) % TotalQuestions == (j + TotalQuestions) % TotalQuestions == j % TotalQuestions;
    }
  }
}
