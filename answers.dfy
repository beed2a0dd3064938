/** The answer ledger (a value per question id and the set of locked ids)
    and the bookmark flags. */
module Answers {
  import opened Wrappers
  import opened Config

  datatype Ledger = Ledger(answers: map<QuestionId, Answer>, locked: set<QuestionId>)

  function Lookup(answers: map<QuestionId, Answer>, id: QuestionId): Option<Answer> {
    if id in answers then Some(answers[id]) else None
  }

  /** `handleAnswerChange`: a locked answer is left as it is; otherwise the
      value of `id`, and only it, is overwritten. */
  function Edit(l: Ledger, id: QuestionId, v: Answer): (r: Ledger)
    ensures r.locked == l.locked
    ensures id in l.locked ==> r.answers == l.answers
    ensures id !in l.locked ==> Lookup(r.answers, id) == Some(v)
    ensures forall k :: k != id ==> Lookup(r.answers, k) == Lookup(l.answers, k)
  {
    if id in l.locked then l else Ledger(l.answers[id := v], l.locked)
  }

  /** `submitAnswer`'s lock: always added, whether or not there is a value. */
  function Lock(l: Ledger, id: QuestionId): (r: Ledger)
    ensures r.answers == l.answers && r.locked == l.locked + {id}
  {
    Ledger(l.answers, l.locked + {id})
  }

  /** `resetAnswer`: the lock is removed and the value kept. */
  function Unlock(l: Ledger, id: QuestionId): (r: Ledger)
    ensures r.answers == l.answers && r.locked == l.locked - {id}
  {
    Ledger(l.answers, l.locked - {id})
  }

  function EditAll(l: Ledger, edits: seq<(QuestionId, Answer)>): Ledger
    decreases |edits|
  {
    if edits == [] then l else EditAll(Edit(l, edits[0].0, edits[0].1), edits[1..])
  }

  /** A locked answer survives any run of edits, on its own question or on
      any other, and stays locked. */
  lemma {:induction false} LockedAnswerIsFrozen(l: Ledger, id: QuestionId, edits: seq<(QuestionId, Answer)>)
    requires id in l.locked
    ensures Lookup(EditAll(l, edits).answers, id) == Lookup(l.answers, id)
    ensures EditAll(l, edits).locked == l.locked
    decreases |edits|
  {
    if edits != [] {
      LockedAnswerIsFrozen(Edit(l, edits[0].0, edits[0].1), id, edits[1..]);
    }
  }

  /** Submit, reset, edit: the lock leaves nothing behind, and the edit
      lands as it would on a question that was never locked. */
  lemma ResetRestoresEditing(l: Ledger, id: QuestionId, v: Answer)
    requires id !in l.locked
    ensures Edit(Unlock(Lock(l, id), id), id, v) == Edit(l, id, v)
  {
  }

  /** `toggleBookmark`: an absent flag reads as false. */
  function Flag(b: map<QuestionId, bool>, id: QuestionId): bool {
    id in b && b[id]
  }

  function Toggle(b: map<QuestionId, bool>, id: QuestionId): (r: map<QuestionId, bool>)
    ensures Flag(r, id) == !Flag(b, id)
    ensures forall k :: k != id ==> Flag(r, k) == Flag(b, k)
  {
    b[id := !Flag(b, id)]
  }

  /** Toggling twice gives back every flag. */
  lemma ToggleTwice(b: map<QuestionId, bool>, id: QuestionId)
    ensures forall k :: Flag(Toggle(Toggle(b, id), id), k) == Flag(b, k)
  {
  }
}
