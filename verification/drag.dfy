/**
 * Drag-to-pan. A press records the pointer position and starts a drag; each
 * drag event passes the pointer's displacement since the last recorded
 * position to graph.moveGraph and records the new position; a release ends
 * the drag. The displacements are Java `int` differences.
 */
module Drag {
  import opened JavaInt
  import opened Optional

  datatype Point = Point(x: Int32, y: Int32)

  datatype MouseEvent = Pressed(at: Point) | Released | Dragged(at: Point)

  /** The panel's initialMouseX, initialMouseY and isDragging fields. */
  datatype DragState = DragState(anchor: Point, dragging: bool)

  /** The arguments of one graph.moveGraph call. */
  datatype Offset = Offset(dx: Int32, dy: Int32)

  datatype Reaction = Reaction(state: DragState, moved: Option<Offset>)

  /** The press, release and drag handlers. */
  function OnEvent(s: DragState, e: MouseEvent): (r: Reaction)
    ensures r.moved.Some? <==> e.Dragged? && s.dragging
    ensures r.moved.Some? ==> Congruent(r.moved.value.dx, e.at.x - s.anchor.x) && Congruent(r.moved.value.dy, e.at.y - s.anchor.y)
    ensures r.moved.Some? && InRange(e.at.x - s.anchor.x) && InRange(e.at.y - s.anchor.y) ==>
              r.moved.value == Offset(e.at.x - s.anchor.x, e.at.y - s.anchor.y)
    ensures r.state.dragging <==> e.Pressed? || (e.Dragged? && s.dragging)
    ensures e.Dragged? && !s.dragging ==> r.state == s
    ensures !e.Released? && r.state.dragging ==> r.state.anchor == e.at
  {
    match e
    case Pressed(p) => Reaction(DragState(p, true), None)
    case Released => Reaction(s.(dragging := false), None)
    case Dragged(p) =>
      if s.dragging then
        Reaction(DragState(p, true), Some(Offset(Wrap(p.x - s.anchor.x), Wrap(p.y - s.anchor.y))))
      else Reaction(s, None)
  }

  /** The state after a run of events, and the moveGraph calls it made, in order. */
  datatype Trace = Trace(state: DragState, moves: seq<Offset>)

  function Run(s: DragState, es: seq<MouseEvent>): Trace
    decreases |es|
  {
    if |es| == 0 then Trace(s, [])
    else
      var r := OnEvent(s, es[0]);
      var t := Run(r.state, es[1..]);
      Trace(t.state, (if r.moved.Some? then [r.moved.value] else []) + t.moves)
  }

  function SumX(ms: seq<Offset>): int {
    if |ms| == 0 then 0 else ms[0].dx + SumX(ms[1..])
  }

  function SumY(ms: seq<Offset>): int {
    if |ms| == 0 then 0 else ms[0].dy + SumY(ms[1..])
  }

  predicate AllDrags(es: seq<MouseEvent>) {
    forall i :: 0 <= i < |es| ==> es[i].Dragged?
  }

  /** Where the pointer ends up after a run of drag events that start at `p`. */
  function LastPosition(p: Point, es: seq<MouseEvent>): Point
    requires AllDrags(es)
  {
    if |es| == 0 then p else es[|es| - 1].at
  }

  /**
   * During a drag, the moveGraph offsets add up, in Java `int` arithmetic,
   * to the pointer's displacement from the recorded position to the last
   * drag position; one offset is passed per drag event.
   */
  lemma {:induction false} DragOffsetsTelescope(s: DragState, es: seq<MouseEvent>)
    requires s.dragging && AllDrags(es)
    ensures |Run(s, es).moves| == |es|
    ensures Run(s, es).state == DragState(LastPosition(s.anchor, es), true)
    ensures Congruent(SumX(Run(s, es).moves), LastPosition(s.anchor, es).x - s.anchor.x)
    ensures Congruent(SumY(Run(s, es).moves), LastPosition(s.anchor, es).y - s.anchor.y)
    decreases |es|
  {
    if |es| > 0 {
      var r := OnEvent(s, es[0]);
      var rest := es[1..];
      assert AllDrags(rest);
      DragOffsetsTelescope(r.state, rest);
      var t := Run(r.state, rest);
      var d := r.moved.value;
      assert Run(s, es).moves == [d] + t.moves;
      assert SumX([d] + t.moves) == d.dx + SumX(t.moves);
      assert SumY([d] + t.moves) == d.dy + SumY(t.moves);
      assert LastPosition(r.state.anchor, rest) == LastPosition(s.anchor, es);
      var last := LastPosition(s.anchor, es);
      CongruentAdd(d.dx, es[0].at.x - s.anchor.x, SumX(t.moves), last.x - es[0].at.x);
      CongruentAdd(d.dy, es[0].at.y - s.anchor.y, SumY(t.moves), last.y - es[0].at.y);
    }
  }

  /** Each consecutive pointer difference of the drag is itself an `int`, so no subtraction wraps. */
  predicate StepsFit(p: Point, es: seq<MouseEvent>)
    requires AllDrags(es)
    decreases |es|
  {
    |es| == 0 ||
    (InRange(es[0].at.x - p.x) && InRange(es[0].at.y - p.y) && StepsFit(es[0].at, es[1..]))
  }

  /** When no difference wraps, the moveGraph offsets add up exactly to the pointer's displacement. */
  lemma {:induction false} DragOffsetsSumExactly(s: DragState, es: seq<MouseEvent>)
    requires s.dragging && AllDrags(es) && StepsFit(s.anchor, es)
    ensures SumX(Run(s, es).moves) == LastPosition(s.anchor, es).x - s.anchor.x
    ensures SumY(Run(s, es).moves) == LastPosition(s.anchor, es).y - s.anchor.y
    decreases |es|
  {
    if |es| > 0 {
      var r := OnEvent(s, es[0]);
      var rest := es[1..];
      assert AllDrags(rest);
      DragOffsetsSumExactly(r.state, rest);
      var t := Run(r.state, rest);
      var d := r.moved.value;
      assert Run(s, es).moves == [d] + t.moves;
      assert SumX([d] + t.moves) == d.dx + SumX(t.moves);
      assert SumY([d] + t.moves) == d.dy + SumY(t.moves);
      assert LastPosition(r.state.anchor, rest) == LastPosition(s.anchor, es);
    }
  }

  /** Outside a drag, and until the next press, no offset is passed to moveGraph. */
  lemma {:induction false} NoMovesWithoutPress(s: DragState, es: seq<MouseEvent>)
    requires !s.dragging
    requires forall i :: 0 <= i < |es| ==> !es[i].Pressed?
    ensures Run(s, es).moves == []
    ensures !Run(s, es).state.dragging
    decreases |es|
  {
    if |es| > 0 {
      NoMovesWithoutPress(OnEvent(s, es[0]).state, es[1..]);
    }
  }

  /** A press followed by drags: the offsets add up to the last drag position minus the press position. */
  lemma PressThenDrag(s: DragState, p: Point, es: seq<MouseEvent>)
    requires AllDrags(es)
    ensures var t := Run(s, [Pressed(p)] + es);
            Congruent(SumX(t.moves), LastPosition(p, es).x - p.x) &&
            Congruent(SumY(t.moves), LastPosition(p, es).y - p.y)
  {
    assert ([Pressed(p)] + es)[1..] == es;
    assert OnEvent(s, Pressed(p)) == Reaction(DragState(p, true), None);
    assert Run(s, [Pressed(p)] + es).moves == Run(DragState(p, true), es).moves;
    DragOffsetsTelescope(DragState(p, true), es);
  }

}
