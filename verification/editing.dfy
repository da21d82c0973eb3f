/**
  One page's editing session: its scene and hotspot counter, and the page's
  own undo stack of commands. Commands are objects that change as they run
  (batch add and paste remember the items they made), so the stack stores
  each command as its last run left it.
*/
module Editing {
  import opened Geometry
  import opened Scene
  import opened Ids
  import opened History
  import opened Placement
  import opened ItemSets
  import opened Commands

  datatype Session = Session(state: PageState, stack: Stack<Command>)

  /** Every command on the stack names items of the page. */
  predicate Consistent(e: Session) {
    && Valid(e.state.scene)
    && e.stack.Valid()
    && forall k :: 0 <= k < |e.stack.cmds| ==> Refers(e.stack.cmds[k], e.state.scene)
  }

  /** A fresh session for a page of size `sceneRect`: no hotspots, an empty
      stack, and the counter at the start value it was given. */
  function NewSession(start: nat, sceneRect: Rect): (e: Session)
    ensures Consistent(e) && e.state.counter == start
    ensures e.state.scene.members == {} && !e.stack.CanUndo() && !e.stack.CanRedo()
  {
    Session(PageState(Scene(map[], {}, {}, 0, sceneRect), start), Empty())
  }

  /** `get_next_hotspot_id`: the current counter value, and the session with
      the counter one further on. */
  function TakeId(e: Session): (r: (nat, Session))
    ensures r.0 == e.state.counter && r.1.state.counter == r.0 + 1
    ensures r.1 == e.(state := e.state.(counter := r.1.state.counter))
  {
    var (n, next) := NextHotspotId(e.state.counter);
    (n, e.(state := e.state.(counter := next)))
  }

  /** A command names the same items in any scene that keeps those items. */
  lemma RefersGrows(c: Command, s: Scene, t: Scene)
    requires Refers(c, s) && s.items.Keys <= t.items.Keys
    ensures Refers(c, t)
  {
  }

  lemma StackRefersGrows(cmds: seq<Command>, s: Scene, t: Scene)
    requires forall k :: 0 <= k < |cmds| ==> Refers(cmds[k], s)
    requires s.items.Keys <= t.items.Keys
    ensures forall k :: 0 <= k < |cmds| ==> Refers(cmds[k], t)
  {
    forall k | 0 <= k < |cmds| ensures Refers(cmds[k], t) {
      RefersGrows(cmds[k], s, t);
    }
  }

  /** `undo_stack.push(c)`: run the command and record it. */
  function PushCommand(e: Session, c: Command, ctx: IdContext): (r: Session)
    requires Consistent(e) && Refers(c, e.state.scene)
    ensures Consistent(r) && r.stack.CanUndo() && !r.stack.CanRedo()
    ensures r.state.counter >= e.state.counter
    ensures r.state == Redo(c, e.state, ctx).1
  {
    var (c1, st) := Redo(c, e.state, ctx);
    StackRefersGrows(e.stack.cmds, e.state.scene, st.scene);
    Session(st, Push(e.stack, c1))
  }

  /** Undo the last done command. */
  function UndoLast(e: Session): (r: Session)
    requires Consistent(e) && e.stack.CanUndo()
    ensures Consistent(r) && r.stack.CanRedo() && r.stack.index + 1 == e.stack.index
    ensures r.state.counter == e.state.counter
    ensures r.state == Undo(e.stack.cmds[e.stack.index - 1], e.state).1
  {
    var (c1, st) := Undo(e.stack.cmds[e.stack.index - 1], e.state);
    StackRefersGrows(e.stack.cmds, e.state.scene, st.scene);
    Session(st, StepBack(e.stack, c1))
  }

  /** Redo the first undone command. */
  function RedoNext(e: Session, ctx: IdContext): (r: Session)
    requires Consistent(e) && e.stack.CanRedo()
    ensures Consistent(r) && r.stack.CanUndo() && r.stack.index == e.stack.index + 1
    ensures r.state.counter >= e.state.counter
    ensures r.state == Redo(e.stack.cmds[e.stack.index], e.state, ctx).1
  {
    var (c1, st) := Redo(e.stack.cmds[e.stack.index], e.state, ctx);
    StackRefersGrows(e.stack.cmds, e.state.scene, st.scene);
    Session(st, StepForward(e.stack, c1))
  }

  /** One step of editing: push a command, undo, or redo. */
  datatype Step = PushStep(c: Command) | UndoStep | RedoStep

  predicate Enabled(e: Session, s: Step) {
    match s
    case PushStep(c) => Refers(c, e.state.scene)
    case UndoStep => e.stack.CanUndo()
    case RedoStep => e.stack.CanRedo()
  }

  function Apply(e: Session, s: Step, ctx: IdContext): (r: Session)
    requires Consistent(e) && Enabled(e, s)
    ensures Consistent(r) && r.state.counter >= e.state.counter
  {
    match s
    case PushStep(c) => PushCommand(e, c, ctx)
    case UndoStep => UndoLast(e)
    case RedoStep => RedoNext(e, ctx)
  }

  /** Running a sequence of steps, stopping at the first one not enabled. */
  function Run(e: Session, steps: seq<Step>, ctx: IdContext): (r: Session)
    requires Consistent(e)
    ensures Consistent(r)
    decreases |steps|
  {
    if |steps| == 0 || !Enabled(e, steps[0]) then e
    else Run(Apply(e, steps[0], ctx), steps[1..], ctx)
  }

  /** Nothing a session does moves its counter back: pushes, undos and redos
      of any commands. */
  lemma {:induction false} RunCounterMonotone(e: Session, steps: seq<Step>, ctx: IdContext)
    requires Consistent(e)
    ensures Run(e, steps, ctx).state.counter >= e.state.counter
    decreases |steps|
  {
    if |steps| > 0 && Enabled(e, steps[0]) {
      RunCounterMonotone(Apply(e, steps[0], ctx), steps[1..], ctx);
    }
  }
}
