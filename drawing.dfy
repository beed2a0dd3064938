/** The per-question annotation store (committed strokes, oldest first, and
    the redo stack) and the render plan that turns strokes into canvas paths. */
module Drawing {
  import opened Wrappers

  datatype Tool = Pencil | Line | Eraser
  datatype Color = Black | Red | Blue
  /** A canvas position; the client coordinates are abstracted to integers. */
  datatype Point = Point(x: int, y: int)
  datatype Stroke = Stroke(tool: Tool, color: Color, points: seq<Point>)

  /** `drawings` and `redoStack`, both keyed by question id. */
  datatype Annotations = Annotations(drawings: map<int, seq<Stroke>>, redo: map<int, seq<Stroke>>)

  /** `m[id] || []`. */
  function History(m: map<int, seq<Stroke>>, id: int): seq<Stroke> {
    if id in m then m[id] else []
  }

  function Committed(a: Annotations, id: int): seq<Stroke> {
    History(a.drawings, id)
  }

  function Undone(a: Annotations, id: int): seq<Stroke> {
    History(a.redo, id)
  }

  /** Every stored stroke has at least one point. */
  predicate WellFormed(a: Annotations) {
    (forall id, j :: id in a.drawings && 0 <= j < |a.drawings[id]| ==> |a.drawings[id][j].points| >= 1) &&
    (forall id, j :: id in a.redo && 0 <= j < |a.redo[id]| ==> |a.redo[id][j].points| >= 1)
  }

  /** The commit in `endDraw`: the stroke goes to the end of the question's
      history and that question's redo stack is dropped. */
  function Commit(a: Annotations, id: int, s: Stroke): (r: Annotations)
    ensures Committed(r, id) == Committed(a, id) + [s] && Undone(r, id) == []
    ensures forall k :: k != id ==> Committed(r, k) == Committed(a, k) && Undone(r, k) == Undone(a, k)
    ensures WellFormed(a) && |s.points| >= 1 ==> WellFormed(r)
  {
    Annotations(a.drawings[id := Committed(a, id) + [s]], a.redo - {id})
  }

  /** `undo`: nothing on an empty history; otherwise the newest stroke moves
      to the top of the redo stack. */
  function Undo(a: Annotations, id: int): (r: Annotations)
    ensures Committed(a, id) == [] ==> r == a
    ensures Committed(a, id) != [] ==>
      Committed(r, id) + [Committed(a, id)[|Committed(a, id)| - 1]] == Committed(a, id) &&
      Undone(r, id) == Undone(a, id) + [Committed(a, id)[|Committed(a, id)| - 1]]
    ensures forall k :: k != id ==> Committed(r, k) == Committed(a, k) && Undone(r, k) == Undone(a, k)
    ensures WellFormed(a) ==> WellFormed(r)
  {
    var q := Committed(a, id);
    if |q| == 0 then a
    else
      Annotations(a.drawings[id := q[..|q| - 1]], a.redo[id := Undone(a, id) + [q[|q| - 1]]])
  }

  /** `redo`: the mirror of `undo`. */
  function Redo(a: Annotations, id: int): (r: Annotations)
    ensures Undone(a, id) == [] ==> r == a
    ensures Undone(a, id) != [] ==>
      Undone(r, id) + [Undone(a, id)[|Undone(a, id)| - 1]] == Undone(a, id) &&
      Committed(r, id) == Committed(a, id) + [Undone(a, id)[|Undone(a, id)| - 1]]
    ensures forall k :: k != id ==> Committed(r, k) == Committed(a, k) && Undone(r, k) == Undone(a, k)
    ensures WellFormed(a) ==> WellFormed(r)
  {
    var q := Undone(a, id);
    if |q| == 0 then a
    else
      Annotations(a.drawings[id := Committed(a, id) + [q[|q| - 1]]], a.redo[id := q[..|q| - 1]])
  }

  /** The confirmed `clearAll`: the question's strokes become empty and its
      redo stack is dropped. */
  function Clear(a: Annotations, id: int): (r: Annotations)
    ensures Committed(r, id) == [] && Undone(r, id) == []
    ensures forall k :: k != id ==> Committed(r, k) == Committed(a, k) && Undone(r, k) == Undone(a, k)
    ensures WellFormed(a) ==> WellFormed(r)
  {
    Annotations(a.drawings[id := []], a.redo - {id})
  }

  /** Clearing cannot be undone: afterwards both undo and redo are no-ops
      on that question. */
  lemma ClearIsFinal(a: Annotations, id: int)
    ensures Undo(Clear(a, id), id) == Clear(a, id)
    ensures Redo(Clear(a, id), id) == Clear(a, id)
  {
  }

  /** Undo then redo gives back the question's strokes and redo stack. */
  lemma UndoThenRedo(a: Annotations, id: int)
    requires Committed(a, id) != []
    ensures Redo(Undo(a, id), id).drawings == a.drawings
    ensures forall k :: Undone(Redo(Undo(a, id), id), k) == Undone(a, k)
  {
    var q := Committed(a, id);
    var u := Undo(a, id);
    assert Undone(u, id) != [];
    assert Undone(u, id)[..|Undone(u, id)| - 1] == Undone(a, id);
    assert q[..|q| - 1] + [q[|q| - 1]] == q;
  }

  /** Redo then undo gives back the question's strokes and redo stack. */
  lemma RedoThenUndo(a: Annotations, id: int)
    requires Undone(a, id) != []
    ensures Undo(Redo(a, id), id).redo == a.redo
    ensures forall k :: Committed(Undo(Redo(a, id), id), k) == Committed(a, k)
  {
    var q, c := Undone(a, id), Committed(a, id);
    var x := q[|q| - 1];
    var r := Redo(a, id);
    assert r == Annotations(a.drawings[id := c + [x]], a.redo[id := q[..|q| - 1]]);
    assert Committed(r, id) == c + [x];
    assert (c + [x])[..|c + [x]| - 1] == c;
    assert Undone(r, id) == q[..|q| - 1];
    assert q[..|q| - 1] + [x] == q;
    var u := Undo(r, id);
    assert u == Annotations(r.drawings[id := c], r.redo[id := q]);
  }

  /** Undo and redo only move strokes: per question, committed plus undone
      is the same count before and after. */
  lemma UndoRedoKeepStrokeCount(a: Annotations, id: int)
    ensures forall k :: |Committed(Undo(a, id), k)| + |Undone(Undo(a, id), k)| == |Committed(a, k)| + |Undone(a, k)|
    ensures forall k :: |Committed(Redo(a, id), k)| + |Undone(Redo(a, id), k)| == |Committed(a, k)| + |Undone(a, k)|
  {
    forall k ensures |Committed(Undo(a, id), k)| + |Undone(Undo(a, id), k)| == |Committed(a, k)| + |Undone(a, k)| {
      if k == id && Committed(a, id) != [] {
        var q := Committed(a, id);
        assert |Committed(Undo(a, id), k) + [q[|q| - 1]]| == |q|;
      }
    }
    forall k ensures |Committed(Redo(a, id), k)| + |Undone(Redo(a, id), k)| == |Committed(a, k)| + |Undone(a, k)| {
      if k == id && Undone(a, id) != [] {
        var q := Undone(a, id);
        assert |Undone(Redo(a, id), k) + [q[|q| - 1]]| == |q|;
      }
    }
  }

  // ---- Render plan ----

  datatype Composite = SourceOver | DestinationOut

  /** One `ctx.stroke()`: blend mode, line width, stroke style (left as it
      was for the eraser) and the path from `moveTo` through each `lineTo`. */
  datatype DrawCmd = DrawCmd(composite: Composite, width: int, strokeStyle: Option<string>, path: seq<Point>)

  const EraserWidth: int := 20
  const PenWidth: int := 3

  /** The pen colour as a CSS colour. */
  function StyleOf(c: Color): (r: string)
    ensures |r| >= 4 && r[0] == '#'
  {
    match c
    case Black => "#000"
    case Red => "#ff0000"
    case Blue => "#0000ff"
  }

  /** Distinct pen colours draw in distinct styles. */
  lemma StylesDistinct(c: Color, d: Color)
    ensures c != d ==> StyleOf(c) != StyleOf(d)
  {
  }

  /** A command is shaped as the renderer draws: a non-empty path, and
      either the wide destination-out eraser with no style of its own or the
      narrow source-over pen with a colour. */
  predicate WellShaped(c: DrawCmd) {
    |c.path| >= 1 &&
    (c.composite == DestinationOut ==> c.width == EraserWidth && c.strokeStyle == None) &&
    (c.composite == SourceOver ==> c.width == PenWidth && c.strokeStyle.Some?)
  }

  /** The path of a stroke: a straight line with more than one point is the
      single segment from its first to its last point; any other stroke goes
      through all its points. */
  function PathOf(s: Stroke): (p: seq<Point>)
    requires |s.points| >= 1
    ensures |p| >= 1 && p[0] == s.points[0] && p[|p| - 1] == s.points[|s.points| - 1]
    ensures s.tool == Line && |s.points| > 1 ==> p == [s.points[0], s.points[|s.points| - 1]]
    ensures !(s.tool == Line && |s.points| > 1) ==> p == s.points
  {
    if s.tool == Line && |s.points| > 1 then [s.points[0], s.points[|s.points| - 1]] else s.points
  }

  function CmdOf(s: Stroke): (c: DrawCmd)
    requires |s.points| >= 1
    ensures WellShaped(c)
    ensures c.path == PathOf(s)
    ensures c.composite == DestinationOut <==> s.tool == Eraser
    ensures s.tool != Eraser ==> c.strokeStyle == Some(StyleOf(s.color))
  {
    if s.tool == Eraser then DrawCmd(DestinationOut, EraserWidth, None, PathOf(s))
    else DrawCmd(SourceOver, PenWidth, Some(StyleOf(s.color)), PathOf(s))
  }

  /** The commands for a list of strokes, in order, skipping empty strokes. */
  function Plan(strokes: seq<Stroke>): (plan: seq<DrawCmd>)
    ensures |plan| <= |strokes|
    ensures forall i :: 0 <= i < |plan| ==> WellShaped(plan[i])
  {
    if strokes == [] then []
    else
      var last := strokes[|strokes| - 1];
      Plan(strokes[..|strokes| - 1]) + (if |last.points| < 1 then [] else [CmdOf(last)])
  }

  /** The plan of the committed strokes followed by the in-progress one is
      the committed plan followed by the in-progress command. */
  lemma {:induction false} PlanAppend(a: seq<Stroke>, b: seq<Stroke>)
    ensures Plan(a + b) == Plan(a) + Plan(b)
    decreases |b|
  {
    if b == [] {
      assert a + b == a;
    } else {
      var ab := a + b;
      assert ab[..|ab| - 1] == a + b[..|b| - 1];
      PlanAppend(a, b[..|b| - 1]);
    }
  }

  /** An empty stroke issues no command: it drops out of the plan wherever
      it stands. */
  lemma PlanSkipsEmpty(a: seq<Stroke>, s: Stroke, b: seq<Stroke>)
    requires |s.points| == 0
    ensures Plan(a + [s] + b) == Plan(a + b)
  {
    PlanAppend(a + [s], b);
    PlanAppend(a, [s]);
    assert Plan([s]) == [] by {
      assert [s][..0] == [];
    }
    PlanAppend(a, b);
  }

  /** With no empty stroke nothing is skipped: command `i` draws stroke `i`. */
  lemma {:induction false} PlanOfNonEmpty(strokes: seq<Stroke>)
    requires forall j :: 0 <= j < |strokes| ==> |strokes[j].points| >= 1
    ensures |Plan(strokes)| == |strokes|
    ensures forall i :: 0 <= i < |strokes| ==> Plan(strokes)[i] == CmdOf(strokes[i])
    decreases |strokes|
  {
    if strokes != [] {
      var front := strokes[..|strokes| - 1];
      PlanOfNonEmpty(front);
      assert Plan(strokes) == Plan(front) + [CmdOf(strokes[|strokes| - 1])];
    }
  }

  /** The committed strokes followed by a stroke in progress, none of them
      empty, are drawn one command each, in that order. */
  lemma CommittedThenInProgress(committed: seq<Stroke>, inProgress: Option<Stroke>)
    requires forall j :: 0 <= j < |committed| ==> |committed[j].points| >= 1
    requires inProgress.Some? ==> |inProgress.value.points| >= 1
    ensures var strokes := committed + (if inProgress.Some? then [inProgress.value] else []);
      |Plan(strokes)| == |strokes| &&
      forall i :: 0 <= i < |strokes| ==> |strokes[i].points| >= 1 && Plan(strokes)[i] == CmdOf(strokes[i])
  {
    var strokes := committed + (if inProgress.Some? then [inProgress.value] else []);
    forall j | 0 <= j < |strokes|
      ensures |strokes[j].points| >= 1
    {
      if j < |committed| {
        assert strokes[j] == committed[j];
      }
    }
    PlanOfNonEmpty(strokes);
  }

  /** The `moveTo`/`lineTo` calls of one non-empty stroke. */
  method StrokePath(s: Stroke) returns (path: seq<Point>)
    requires |s.points| >= 1
    ensures path == PathOf(s)
  {
    if s.tool == Line && |s.points| > 1 {
      path := [s.points[0], s.points[|s.points| - 1]];
    } else {
      path := [s.points[0]];
      for j := 1 to |s.points|
        invariant path == s.points[..j]
      {
        path := path + [s.points[j]];
      }
      assert s.points[..|s.points|] == s.points;
    }
  }

  /** `renderCanvas`: the committed strokes followed by the in-progress
      stroke, if any, each non-empty one drawn as one command. */
  method RenderPlan(committed: seq<Stroke>, inProgress: Option<Stroke>) returns (plan: seq<DrawCmd>)
    ensures plan == Plan(committed + (if inProgress.Some? then [inProgress.value] else []))
  {
    var strokes := committed + (if inProgress.Some? then [inProgress.value] else []);
    plan := [];
    for i := 0 to |strokes|
      invariant plan == Plan(strokes[..i])
    {
      var s := strokes[i];
      assert strokes[..i + 1][..i] == strokes[..i];
      if |s.points| >= 1 {
        var path := StrokePath(s);
        var cmd := if s.tool == Eraser then DrawCmd(DestinationOut, EraserWidth, None, path)
                   else DrawCmd(SourceOver, PenWidth, Some(StyleOf(s.color)), path);
        assert cmd == CmdOf(s);
        plan := plan + [cmd];
      }
    }
    assert strokes[..|strokes|] == strokes;
  }
}
