# Exam session model

A Dafny model of the exam screen of a riddle-exam web page (`index.jsx`).
The page shows fifty questions. A candidate types or picks an answer, locks
it with "submit" (which moves on to the next question), may unlock it again,
bookmarks questions, and scribbles on each question with a pencil, a
straight-line tool or an eraser, with undo, redo and clear. A one-hour
countdown ends the exam at zero. The finish button ends it too, after a
confirmation. The answers handed over at the end are then graded: two points
for each answer that equals the key.

The model is split into modules that follow the program's parts:

- `Config` holds the fixed question table and the answer key built at start-up. It also holds the answer text of a question-list entry (`AnswerText`, with `Truthy` and `Shown`), which in the program belongs to the list item component, because the result table reuses the same label and truthiness rules.
- `Strings` and `Clock` hold the `mm:ss` display of the countdown (`String(n)`, `padStart(2, '0')`), its inverse reading, and the countdown tick.
- `Answers` holds the answer ledger (values plus locked ids) and the bookmark flags (`Flag`, `Toggle`, `ToggleTwice`, which in the program sit with the list and bookmark handlers), as pure transitions on maps and sets.
- `Navigation` holds the previous/next arrows, the advance after a submit, and the jump from the question list.
- `Drawing` holds the per-question annotation store (committed strokes and redo stack) and the render plan: the list of canvas commands `renderCanvas` issues.
- `Grading` holds the result screen's grading loop, and lemmas about the score.
- `Session` is the screen itself. The class `ExamSession` has one field per piece of state: every `useState` cell of the exam screen except the menu, toolbar-visibility and dialog cells (`index.jsx:144`, `153`, `156`), the canvas layer's `isDrawing`/`currentStroke`, and a lifecycle phase. It has one method per handler. Every method keeps the invariant `Valid()`. The handlers that change answers, bookmarks, the index, the clock or the drawings state their new state through the pure transitions above. `SelectTool`, `SelectColor`, `StartDraw`, `MoveDraw`, `MoveTo` and `RequestFinish` state it directly, field by field. The invariant `Valid()` says:
  - the question index lies in `[0, 50)`;
  - the countdown is never negative;
  - a stroke is in progress exactly when points are being collected;
  - every stored stroke has a point.
- `Walkthrough` runs a whole exam through the handlers. It answers question 1 with "foo", submits, draws, undoes and redraws on question 2, lets the hour run out, and grades the result: 0 points.

The exam ends by entering the phase `Finished(snapshot)`. That phase holds the answers handed to the result screen. The handlers require the phase `Active`, because the exam screen is unmounted once it has finished (`index.jsx:844`). A stray tick after the finish is tolerated and changes nothing.

The interval callback ends the exam on the tick that finds the time already at zero (`index.jsx:166-169`). From `t` seconds, therefore, `t` ticks bring the clock to `00:00`, and tick `t + 1` ends the exam. `Clock.Countdown` and `Walkthrough.RunOutTheClock` state this.

## Model

| member | source | states |
|---|---|---|
| Config.CorrectAnswers | index.jsx:26-34 | fifty keys; questions 11, 12, 13 and 50 have the choice `id % 4`, and every other question has the sample text |
| Config.QuestionConfig | index.jsx:37-48 | fifty questions with ids `i + 1` in order, two points each, a choice question exactly for the ids 11, 12, 13, 50, question `i`'s key being `CorrectAnswers()[i]`, a choice question's options being the four labels, and each choice key an index of one of them |
| Config.MakeQuestion | index.jsx:38-47 | entry `i` has id `i + 1`, two points, the padded image path, the kind given by the choice ids, the four labels on a choice question, key `CorrectAnswers()[i]`, and is well formed |
| Config.IsMultipleChoice | index.jsx:28-39 | a definition with no contract: questions 11, 12, 13 and 50 are the choice questions |
| Config.ImagePath | index.jsx:42 | the image path is the fixed `riddle1/riddle1_` prefix, then the id padded by `padStart(2, '0')`, then the `.jfjf` extension |
| Config.Truthy | index.jsx:764 | a definition with no contract: JavaScript truthiness of a stored answer (the empty text and the index 0 are falsy) |
| Config.Shown | index.jsx:664-665 | a definition with no contract: how a stored answer prints (the text itself, or the index in decimal) |
| Config.OptionLabel | index.jsx:763 | `options[a]` is the option's label when `a` indexes an option, and `"undefined"` otherwise; `Config.KeyLabelsDefined` proves that the configured keys always name an option |
| Config.KeyLabelsDefined | index.jsx:26-48 | on every configured choice question, the label of the key is one of the four options, so the key column never shows `undefined` |
| Config.AnswerText | index.jsx:759-767 | the list entry's answer text is empty while the answer is unlocked or missing |
| Config.AnswerTextShowsLockedAnswer | index.jsx:759-767 | a list entry shows nothing until its answer is locked; once locked it shows nothing for a missing answer, the mark and option label for a chosen option, and the typed text for a free-text answer |
| Strings.NatToString | index.jsx:191 | `String(n)` is at least one character long, has no leading zero unless `n` is 0, and is one character exactly when `n < 10` |
| Strings.IntToString | index.jsx:191 | `String(n)` of a non-negative integer is its decimal text `NatToString(n)`; a negative one is a minus sign before digits |
| Strings.Zeros | index.jsx:191 | `k` zero characters |
| Strings.PadStart2 | index.jsx:191 | `padStart(2, '0')` returns text of length 2, or the text itself when it is already longer |
| Strings.PadStart2Shape | index.jsx:191 | padding keeps the text as its suffix and puts only zeros in front of it |
| Strings.NatToStringRoundTrip | index.jsx:191 | the decimal digits of `String(n)` read back as `n` |
| Strings.LeadingZerosValue | index.jsx:191 | zeros put in front of a digit string keep it a digit string of the same value |
| Strings.ZerosValue | index.jsx:191 | a run of zeros is a digit string of value 0 |
| Strings.PadStart2Value | index.jsx:191 | padding a digit string keeps its value |
| Clock.JsRem | index.jsx:190 | JavaScript's `%`: the dividend is the truncated quotient times the divisor plus the remainder; the remainder is the ordinary one in `[0, b)` for a non-negative dividend and lies in `(-b, 0]` for a negative one |
| Clock.JsQuot | index.jsx:190 | the division truncated toward zero that JavaScript's `%` goes with (a helper with no contract of its own; `Clock.JsRem` states its relation to the remainder) |
| Clock.FormatTime | index.jsx:188-192 | the display is at least five characters long; what it shows is stated by `Clock.FormatTimeRoundTrip`, `Clock.FormatTimeFields` and `Clock.FormatTimeShape` |
| Clock.FormatTimeRoundTrip | index.jsx:188-192 | every non-negative time's display `m...m:ss` reads back as the same number of seconds, so `formatTime` loses nothing for any time the screen can hold (see "## Left out" on JavaScript numbers) |
| Clock.FormatTimeFields | index.jsx:188-192 | for a non-negative time the display is the padded minutes `seconds / 60`, a colon, and the padded seconds `seconds % 60`, and the two fields recombine to the time |
| Clock.ReadBack | index.jsx:191 | a display built from minutes `m` and seconds `s < 60` reads back as `m * 60 + s` |
| Clock.PaddedValue | index.jsx:191 | a padded decimal field is a digit string at least two long whose value is the number |
| Clock.ReadFields | index.jsx:191 | any text `mm:ss` made of a digit field, a colon and a two-digit field reads as the first field times 60 plus the second |
| Clock.FormatTimeShape | index.jsx:188-192 | below 100 minutes the display is exactly five characters with the colon in the middle |
| Clock.FieldsShape | index.jsx:191 | minutes below 100 and seconds below 60 make a five-character display with the colon at position 2 |
| Clock.TwoDigitsAtMost | index.jsx:191 | a number below 100 pads to exactly two characters |
| Clock.Tick | index.jsx:165-172 | a positive time counts down by one and does not finish; a time at or below zero finishes and stays at 0; the new time is never negative |
| Clock.Countdown | index.jsx:163-175 | from `t` seconds the first `t` ticks count down to `t - k` without finishing; every later tick leaves the clock at 0 with the exam finished exactly once and the timer cleared |
| Clock.Step | index.jsx:164-172 | a cleared interval does nothing; a running one keeps the time non-negative, stays running exactly while the time was positive, and ends the exam once when it clears itself |
| Clock.Stopped | index.jsx:167 | once the interval is cleared, further ticks change nothing |
| Navigation.Navigate | index.jsx:230-233 | stays inside `[0, 50)`; is a no-op exactly for "previous" at 0 and "next" at 49; otherwise moves by exactly one in the given direction |
| Navigation.AdvanceAfterSubmit | index.jsx:207-215 | the advance after a submit is `(index + 1) % 50`: from the last question to the first, from any other to the next |
| Navigation.JumpIndex | index.jsx:607 | clicking question `id` selects the index in range whose question has that id |
| Navigation.NavigateInverse | index.jsx:230-233 | away from the ends, a step forward and a step back undo each other |
| Navigation.AdvanceCycles | index.jsx:207-215 | `k` submits in a row from `index` land on `(index + k) % 50`, so fifty submits come back to the start |
| Answers.Edit | index.jsx:197-200 | an edit of a locked question leaves the answers unchanged; otherwise it sets that question's answer and no other; locks never change |
| Answers.Lock | index.jsx:204 | submitting adds the question to the locked set whether or not it has an answer, and keeps the answers |
| Answers.Unlock | index.jsx:218-224 | resetting removes the lock and keeps the answer value |
| Answers.LockedAnswerIsFrozen | index.jsx:197-200 | a locked answer survives any sequence of edits, to any questions, and stays locked |
| Answers.ResetRestoresEditing | index.jsx:197-224 | submit then reset leaves no trace: an edit afterwards lands as on a question that was never locked |
| Answers.Flag | index.jsx:227 | a definition with no contract: `!!bookmarks[id]`, an absent flag reading as false |
| Answers.Toggle | index.jsx:226-228 | toggling flips the flag of that id (an absent flag reads as false) and leaves every other id's flag as it was |
| Answers.ToggleTwice | index.jsx:226-228 | toggling twice gives back every flag |
| Drawing.Commit | index.jsx:351-362 | the finished stroke goes at the end of the question's history, that question's redo stack is emptied, other questions are untouched, and stored strokes stay non-empty |
| Drawing.Undo | index.jsx:384-397 | on an empty history nothing changes; otherwise the newest stroke leaves the history and goes on top of the redo stack; other questions are untouched |
| Drawing.Redo | index.jsx:399-412 | on an empty redo stack nothing changes; otherwise its top stroke goes back at the end of the history; other questions are untouched |
| Drawing.Clear | index.jsx:414-423 | the question's history and redo stack become empty; other questions are untouched |
| Drawing.ClearIsFinal | index.jsx:384-423 | after a clear, undo and redo on that question change nothing |
| Drawing.UndoThenRedo | index.jsx:384-412 | on a non-empty history, undo followed by redo restores all histories and all redo stacks exactly |
| Drawing.RedoThenUndo | index.jsx:384-412 | on a non-empty redo stack, redo followed by undo restores all redo stacks and all histories exactly |
| Drawing.UndoRedoKeepStrokeCount | index.jsx:384-412 | undo and redo only move strokes: per question, committed plus undone strokes keep their count |
| Drawing.PathOf | index.jsx:309-319 | a path starts at the stroke's first point and ends at its last; a line stroke with more than one point is the segment from its first to its last point; any other stroke, a one-point line included, passes through all its points |
| Drawing.StyleOf | index.jsx:306 | a pen colour is drawn in a `#`-prefixed CSS colour |
| Drawing.StylesDistinct | index.jsx:306 | distinct colours give distinct stroke styles |
| Drawing.CmdOf | index.jsx:300-307 | a command's path is the stroke's `PathOf`; an eraser draws as the 20-wide destination-out command with no colour; every other tool draws as the 3-wide source-over command in the stroke's colour's style |
| Drawing.History | index.jsx:291 | a definition with no contract: `m[id] \|\| []`, the stored strokes or none |
| Drawing.Plan | index.jsx:291-321 | the render plan has at most one command per stroke, all of them shaped as `CmdOf` states; `Drawing.PlanSkipsEmpty` states that an empty stroke issues none |
| Drawing.PlanSkipsEmpty | index.jsx:294 | an empty stroke drops out of the plan wherever it stands in the list |
| Drawing.PlanAppend | index.jsx:293 | the plan of committed strokes followed by the in-progress one is the committed plan followed by the in-progress command |
| Drawing.PlanOfNonEmpty | index.jsx:293-294 | with no empty stroke none is skipped: command `i` draws stroke `i` |
| Drawing.CommittedThenInProgress | index.jsx:291-294 | non-empty committed strokes followed by a non-empty stroke in progress are drawn one command each, in that order |
| Drawing.StrokePath | index.jsx:309-319 | the `moveTo`/`lineTo` loop produces the stroke's path |
| Drawing.RenderPlan | index.jsx:285-323 | the drawing loop issues the render plan of the committed strokes followed by the in-progress stroke, if any |
| Grading.IsCorrect | index.jsx:662-667 | an answer is correct when it strictly equals the key, so a missing answer or one of the other kind never is (a predicate; its properties are the lemmas below) |
| Grading.Score | index.jsx:651-670 | the running `totalScore`, question by question (no contract of its own; `Grading.ScoreIsPointsOfCorrect` and `Grading.Grade` state what it is) |
| Grading.CorrectQuestions | index.jsx:652-670 | a question is among the correct ones exactly when it is in the table and its answer strictly equals its key |
| Grading.ScoreIsPointsOfCorrect | index.jsx:650-680 | the total score equals the sum of the points of exactly the correctly answered questions |
| Grading.ScoreBounds | index.jsx:650-680 | with non-negative points, the score lies between 0 and the sum of all points |
| Grading.FullScoreIffAllCorrect | index.jsx:650-680 | with positive points, the score is full exactly when every question is answered right |
| Grading.NothingRightScoresZero | index.jsx:650-680 | an empty sheet, or one with no answer right, scores 0 |
| Grading.SumPointsUniform | index.jsx:43 | questions of equal points sum to that many points per question |
| Grading.ConfiguredScore | index.jsx:687 | for the configured exam the points sum to 100, the score lies in `[0, 100]`, and it is twice the number of correct answers |
| Grading.RowOf | index.jsx:653-677 | a result row carries the question id and the strict-equality verdict, and shows `未回答` when there is no answer; its display texts are stated by `Grading.RowShows` |
| Grading.RowShows | index.jsx:658-667 | for a well-formed question, the key column is the mark and the key's option label, or the key text. The answer column is the mark and the chosen option's label, or the typed text, with `未回答` for an empty text |
| Grading.Grade | index.jsx:650-680 | the grading loop builds one row per question, in order, and the running total is the score |
| Session.ExamSession.CurrentId | index.jsx:194 | the current question's id is the index plus one |
| Session.ExamSession.ComposedStrokes | index.jsx:293 | a definition with no contract: the current question's committed strokes, then the stroke in progress if one is being drawn |
| Session.ExamSession.constructor | index.jsx:139-152 | a fresh session is on the first question with 3600 seconds left, nothing answered, locked, bookmarked or drawn, the pencil in black, no stroke in progress |
| Session.ExamSession.Tick | index.jsx:163-175 | an active session moves the clock as `Clock.Tick` says and finishes at zero with the current answers as the snapshot; a finished session is left as it is |
| Session.ExamSession.MoveTo | index.jsx:263-266 | changing the question drops a stroke in progress, and staying on the question keeps it |
| Session.ExamSession.HandleAnswerChange | index.jsx:197-200 | the ledger becomes `Answers.Edit` of the old ledger on the current question |
| Session.ExamSession.SubmitAnswer | index.jsx:202-216 | the current question gets locked, and the index moves as `Navigation.AdvanceAfterSubmit` says |
| Session.ExamSession.ResetAnswer | index.jsx:218-224 | the ledger becomes `Answers.Unlock` of the old ledger on the current question |
| Session.ExamSession.ToggleBookmark | index.jsx:226-228 | the bookmarks become `Answers.Toggle` of the old ones |
| Session.ExamSession.Navigate | index.jsx:230-233 | the index moves as `Navigation.Navigate` says, and a stroke in progress is dropped only if the question changes |
| Session.ExamSession.JumpTo | index.jsx:607 | the current question becomes the one clicked |
| Session.ExamSession.RequestFinish | index.jsx:235-248 | a confirmed finish hands over the current answers; a cancelled one changes nothing |
| Session.ExamSession.SelectTool | index.jsx:517-519 | the chosen tool becomes current |
| Session.ExamSession.SelectColor | index.jsx:521-523 | the chosen colour becomes current |
| Session.ExamSession.StartDraw | index.jsx:336-339 | a stroke holding just the pointer position is in progress |
| Session.ExamSession.MoveDraw | index.jsx:341-345 | the position is appended only while a stroke is in progress |
| Session.ExamSession.EndDraw | index.jsx:347-364 | without a stroke in progress the drawings are unchanged; otherwise the stroke is committed as `Drawing.Commit` says, so the question gains exactly one stroke; the stroke is closed either way |
| Session.ExamSession.Undo | index.jsx:384-397 | the annotations become `Drawing.Undo` of the old ones on the current question |
| Session.ExamSession.Redo | index.jsx:399-412 | the annotations become `Drawing.Redo` of the old ones on the current question |
| Session.ExamSession.ClearAll | index.jsx:414-423 | a confirmed clear gives `Drawing.Clear` on the current question; a cancelled one changes nothing |
| Session.ExamSession.RenderCanvas | index.jsx:285-323 | the canvas draws every committed stroke of the current question and then the stroke in progress, one command each and in that order, none skipped |
| Walkthrough.FooScoresNothing | index.jsx:26-34 | a sheet answering only question 1 with "foo" scores 0 against the key |
| Walkthrough.RunOutTheClock | index.jsx:163-175 | 3600 ticks from a full hour reach zero without finishing, and the next tick finishes with the answers as they stand |
| Walkthrough.Drag | index.jsx:336-364 | one pointer drag from `p` to `q` appends the stroke `[p, q]` in the current tool and colour to the current question's history and empties its redo stack; other questions' histories and redo stacks are unchanged, and only the drawing fields may change |
| Walkthrough.DrawTwoStrokes | index.jsx:336-364 | two pointer drags on an empty question commit two strokes |
| Walkthrough.UndoAndRedraw | index.jsx:347-397 | undoing one of two strokes and drawing another gives two strokes and an empty redo stack |
| Walkthrough.ExamWalkthrough | index.jsx:163-228 | answer "foo" on question 1, submit, then on question 2 draw two, undo one and draw one: two strokes, no redo; the clock runs out with the snapshot `{1: "foo"}`, which scores 0 |

## Left out

- Markup and presentation are not modelled: the JSX, the CSS classes, the start screen, the tool and colour buttons, the icons, the mobile menu and the toolbar visibility toggle. While the toolbar is hidden, the program also turns off the canvas's pointer events (`index.jsx:367`) and the undo/redo/clear buttons (`index.jsx:515`). The model lets those handlers run at any time.
- The Canvas 2D pixel work is not modelled: `clearRect`, `stroke()`, line caps, the final reset of the blend mode, and canvas resizing. `renderCanvas` is modelled as the list of commands it issues.
- Pointer geometry (`getPos`) is not modelled, because it reads floating-point client coordinates from the DOM. Points are given to the handlers as integer pairs.
- Host timing is not modelled. `setInterval`/`clearInterval`, the 300 ms delay before the advance after a submit, and the effect re-subscription of the timer are outside the model. A tick and the advance after a submit are each one atomic step. The model's index stays in `[0, 50)` only because of that abstraction. The program behaves differently in three ways:
  - The delayed callback tests the `currentQIndex` it captured, then applies the relative update `prev + 1` (`index.jsx:207-213`). On question 49, pressing submit and then "next" (`index.jsx:255`, `477-478`) within 300 ms sets the index to 50. `QUESTION_CONFIG[50]` is undefined (`index.jsx:194`), so the render fails at `currentQ.imagePath` (`index.jsx:487`).
  - Submit, reset and submit within 300 ms advances twice.
  - The timer effect depends on `[answers, onFinish]` (`index.jsx:174-175`), so every answer change re-arms the interval. No tick fires while edits come faster than once a second.
- Scrolling the question list, the keyboard and resize listeners, and the image fallback are not modelled. The arrow keys call the same `navigate` that the model has.
- Switching between the app's screens is not modelled beyond the `Finished` phase: its snapshot is what the result screen receives.
- The confirmation dialog is modelled as a boolean, accept or cancel, given in the same step as the request. Its message text is left out. In the program the dialog stays open across renders, and the `window` keydown listener still runs `navigate` while it is open (`index.jsx:251-258`), because the focused element is a button and not an input. The stored `onConfirm` (`index.jsx:236-242`) closes over the `currentQ` of the render in which the trash button was pressed (`index.jsx:415-421`). So pressing trash on question 5, then ArrowRight, then OK clears question 5 while question 6 is on screen. The model's `Session.ExamSession.ClearAll` always acts on the question on screen.
- In `undo` and `redo` the update of the other stack is a state updater nested inside the first (`index.jsx:385-396`, `400-411`). Each is modelled as a single step that updates both stacks.
- The canvas layer is remounted on every render of the exam screen, which also discards a stroke in progress on every tick. The model discards the stroke only when the current question changes (`Session.ExamSession.MoveTo`).
- On a choice question, a stored text that spells an option index (`options["2"]`) is shown as `undefined` in the model, where JavaScript would show that option; the answer field only ever stores an index there.
- Strings.NatToString and Clock.FormatTimeRoundTrip: JavaScript numbers are doubles. `String(n)` switches to exponent notation from 10^21, and integers above 2^53 are not exact. The model's `int` is unbounded, so these two members match JavaScript only below those bounds. Every value the screen formats is far below them: times of at most 3600, ids of at most 50, option indices below 4, scores of at most 100.
- Strings.PadStart2: its own contract states only the length; that the text is kept as the suffix behind zeros is stated by `Strings.PadStart2Shape`, so that proofs about the clock do not carry it.
- Grading.RowOf: the display texts of an answered row (the mark and option label, or the typed text) are not in its own contract; `Grading.RowShows` states them.
- Config.AnswerText: its own contract states only the empty text of an unlocked or missing answer. The other cases are stated by `Config.AnswerTextShowsLockedAnswer`. A choice answer whose value is not an option index is given by the definition alone.
