/**
  An undo stack: the commands pushed so far and a cursor. Commands below the
  cursor are done and can be undone, those at or above it were undone and
  can be redone. Pushing a command (after running it) drops the redo tail.
  The stack does not know what its commands do; the editing session and the
  page list run them.
*/
module History {
  import opened Options

  datatype Stack<C> = Stack(cmds: seq<C>, index: nat) {
    predicate Valid() {
      index <= |cmds|
    }

    predicate CanUndo() {
      index > 0
    }

    predicate CanRedo() {
      index < |cmds|
    }
  }

  function Empty<C>(): (s: Stack<C>)
    ensures s.Valid() && !s.CanUndo() && !s.CanRedo()
  {
    Stack([], 0)
  }

  /** Record a command that has just been run: the undone tail is dropped
      and the new command becomes the one to undo. */
  function Push<C>(s: Stack<C>, c: C): (t: Stack<C>)
    requires s.Valid()
    ensures t.Valid() && t.CanUndo() && !t.CanRedo()
    ensures |t.cmds| == s.index + 1 && t.cmds[s.index] == c
    ensures forall k :: 0 <= k < s.index ==> t.cmds[k] == s.cmds[k]
  {
    Stack(s.cmds[..s.index] + [c], s.index + 1)
  }

  /** Step the cursor back over the command to undo, storing the command as
      its undo left it. */
  function StepBack<C>(s: Stack<C>, undone: C): (t: Stack<C>)
    requires s.Valid() && s.CanUndo()
    ensures t.Valid() && t.CanRedo() && t.index + 1 == s.index && |t.cmds| == |s.cmds|
    ensures forall k :: 0 <= k < |s.cmds| && k != t.index ==> t.cmds[k] == s.cmds[k]
    ensures t.cmds[t.index] == undone
  {
    Stack(s.cmds[s.index - 1 := undone], s.index - 1)
  }

  /** Step the cursor forward over the command to redo, storing the command
      as its redo left it. */
  function StepForward<C>(s: Stack<C>, redone: C): (t: Stack<C>)
    requires s.Valid() && s.CanRedo()
    ensures t.Valid() && t.CanUndo() && t.index == s.index + 1 && |t.cmds| == |s.cmds|
    ensures forall k :: 0 <= k < |s.cmds| && k != s.index ==> t.cmds[k] == s.cmds[k]
    ensures t.cmds[s.index] == redone
  {
    Stack(s.cmds[s.index := redone], s.index + 1)
  }

  /** An undo followed by a redo that gives the command back as it was
      leaves the stack as it was. */
  lemma StepBackForward<C>(s: Stack<C>, undone: C)
    requires s.Valid() && s.CanUndo()
    ensures StepForward(StepBack(s, undone), s.cmds[s.index - 1]) == s
  {
    assert s.cmds[s.index - 1 := undone][s.index - 1 := s.cmds[s.index - 1]] == s.cmds;
  }

  /** Which stack the Undo and Redo menu entries act on. */
  datatype Primary = PageStack | ProjectStack

  /** The page's stack when the active page has one with something to undo or
      redo, otherwise the project's stack. */
  function PrimaryStack<C>(page: Option<Stack<C>>): (p: Primary)
    ensures p == PageStack <==> page.Some? && (page.value.CanUndo() || page.value.CanRedo())
  {
    match page
    case Some(st) => if st.CanUndo() || st.CanRedo() then PageStack else ProjectStack
    case None => ProjectStack
  }

  /** Once a command has been pushed to the page's stack, Undo and Redo act
      on the page's stack; an emptied or untouched page stack leaves them on
      the project's. */
  lemma PushMakesPagePrimary<C>(page: Stack<C>, c: C)
    requires page.Valid()
    ensures PrimaryStack(Some(Push(page, c))) == PageStack
    ensures PrimaryStack<C>(Some(Empty())) == ProjectStack
  {
  }
}
