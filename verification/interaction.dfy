/**
  The interactive behaviour of a resizable hotspot item: the four corner
  handles, the bounds clamp applied to every position change, hover cursors,
  and the press / move / release resize gesture.

  The item's local rectangle is always `(0, 0, w, h)`; its scene rectangle
  is that rectangle moved to `pos`. Handles are child items whose local
  positions are refreshed only when a view is attached; a handle is hit when
  the mouse lies in the square of half-side `extent` centred on it (the
  extent depends on the handle size, the zoom and the pen, so it is a
  parameter).
*/
module Interaction {
  import opened Options
  import opened Geometry

  datatype Cursor = Arrow | SizeFDiag | SizeBDiag

  datatype Item = Item(
    pos: Point,
    size: Size,
    bounds: Option<Rect>,
    inScene: bool,
    hasViewer: bool,
    handles: seq<Point>,
    handlesVisible: bool,
    resizing: bool,
    handle: Option<nat>,
    pressSize: Option<Size>,
    anchor: Option<Point>,
    cursor: Cursor)
  {
    /** The item's rectangle in scene coordinates. */
    function SceneRect(): Rect {
      RectAt(pos, size)
    }
  }

  /** What every reachable item satisfies: four handles, and a gesture in
      progress knows its handle, its press-time size and its anchor. */
  predicate Valid(it: Item) {
    && |it.handles| == 4
    && (it.resizing ==> it.handle.Some? && it.handle.value < 4 && it.pressSize.Some? && it.anchor.Some?)
  }

  /** The four handle positions for a rectangle of size `s`, in handle order. */
  function LocalCorners(s: Size): (cs: seq<Point>)
    ensures |cs| == 4
  {
    [Corner(s, 0), Corner(s, 1), Corner(s, 2), Corner(s, 3)]
  }

  /** Handles move to the rectangle's corners, but only when a view is attached. */
  function UpdateHandles(it: Item): (r: Item)
    requires Valid(it)
    ensures Valid(r)
    ensures it.hasViewer ==> r.handles == LocalCorners(it.size)
    ensures !it.hasViewer ==> r == it
    ensures r.(handles := it.handles) == it
  {
    if it.hasViewer then it.(handles := LocalCorners(it.size)) else it
  }

  /** A freshly built item, not yet in a scene. */
  function NewItem(pos: Point, size: Size, bounds: Option<Rect>, hasViewer: bool): (it: Item)
    ensures Valid(it) && !it.resizing && it.handle.None? && !it.handlesVisible
    ensures it.SceneRect() == RectAt(pos, size)
  {
    var blank := Item(pos, size, bounds, false, hasViewer, seq(4, _ => Point(0.0, 0.0)),
                      false, false, None, None, None, Arrow);
    UpdateHandles(blank)
  }

  // -------------------------------------------------------------- itemChange

  /**
    The value a position change settles on. Outside a gesture, an item with
    bounds is clamped with its current size; during a resize the proposed
    position passes unchanged.
  */
  function PositionChange(v: Point, size: Size, bounds: Option<Rect>, resizing: bool): (r: Point)
    ensures resizing || bounds.None? ==> r == v
    ensures bounds.Some? && bounds.value.Encloses(RectAt(v, size)) ==> r == v
    ensures !resizing && bounds.Some? && size.w <= bounds.value.w && size.h <= bounds.value.h
            ==> bounds.value.Encloses(RectAt(r, size))
  {
    if resizing then v
    else match bounds
      case Some(b) => ClampMove(v, size, b)
      case None => v
  }

  /** `setPos`: the change is filtered only while the item is in a scene. */
  function SetPos(it: Item, v: Point): (r: Item)
    ensures r == it.(pos := r.pos)
    ensures !it.inScene ==> r.pos == v
    ensures it.inScene ==> r.pos == PositionChange(v, it.size, it.bounds, it.resizing)
  {
    it.(pos := if it.inScene then PositionChange(v, it.size, it.bounds, it.resizing) else v)
  }

  /** Selecting shows the handles and refreshes them; deselecting hides them. */
  function SelectedChange(it: Item, value: bool): (r: Item)
    requires Valid(it)
    ensures Valid(r) && r.handlesVisible == value
    ensures r.pos == it.pos && r.size == it.size && r.resizing == it.resizing
    ensures value && it.hasViewer ==> r.handles == LocalCorners(it.size)
    ensures !value ==> r.handles == it.handles
  {
    var shown := it.(handlesVisible := value);
    if value then UpdateHandles(shown) else shown
  }

  // ----------------------------------------------------------------- hit test

  predicate HandleHit(it: Item, i: nat, p: Point, extent: real)
    requires Valid(it) && i < 4
  {
    var c := Add(it.pos, it.handles[i]);
    Rect(c.x - extent, c.y - extent, 2.0 * extent, 2.0 * extent).Contains(p)
  }

  function FirstHit(it: Item, p: Point, extent: real, from: nat): (r: Option<nat>)
    requires Valid(it) && from <= 4
    ensures r.Some? ==> from <= r.value < 4 && HandleHit(it, r.value, p, extent)
    ensures r.Some? ==> forall j :: from <= j < r.value ==> !HandleHit(it, j, p, extent)
    ensures r.None? ==> forall j :: from <= j < 4 ==> !HandleHit(it, j, p, extent)
    decreases 4 - from
  {
    if from == 4 then None
    else if HandleHit(it, from, p, extent) then Some(from)
    else FirstHit(it, p, extent, from + 1)
  }

  /** The first handle, in handle order, whose square contains `p`. Handle
      visibility plays no part. */
  function HandleAt(it: Item, p: Point, extent: real): (r: Option<nat>)
    requires Valid(it)
    ensures r.Some? <==> exists j :: 0 <= j < 4 && HandleHit(it, j, p, extent)
    ensures r.Some? ==> r.value < 4 && HandleHit(it, r.value, p, extent)
    ensures r.Some? ==> forall j :: 0 <= j < r.value ==> !HandleHit(it, j, p, extent)
  {
    FirstHit(it, p, extent, 0)
  }

  /** Diagonal cursors on the handles: `\` for 0 and 2, `/` for 1 and 3. */
  function CursorFor(h: Option<nat>): (c: Cursor)
    ensures h.None? <==> c == Arrow
    ensures c == SizeFDiag <==> h == Some(0) || h == Some(2)
  {
    match h
    case None => Arrow
    case Some(i) => if i == 0 || i == 2 then SizeFDiag else SizeBDiag
  }

  function Hover(it: Item, p: Point, extent: real): (r: Item)
    requires Valid(it)
    ensures Valid(r) && r == it.(cursor := r.cursor)
    ensures r.cursor == CursorFor(HandleAt(it, p, extent))
  {
    it.(cursor := CursorFor(HandleAt(it, p, extent)))
  }

  // ----------------------------------------------------------- resize gesture

  /** The scene point diagonally across from handle `i` on the item as it is now. */
  function AnchorFor(it: Item, i: nat): (a: Point)
    requires i < 4
    ensures it.SceneRect().HasCorner(a)
  {
    Add(it.pos, Corner(it.size, Opposite(i)))
  }

  /**
    A press on a handle starts a resize and remembers the press-time size and
    the opposite corner in scene coordinates; a press elsewhere ends any
    resize (the ordinary selection and drag handling is Qt's own).
  */
  function Press(it: Item, p: Point, extent: real): (r: Item)
    requires Valid(it)
    ensures Valid(r) && r.pos == it.pos && r.size == it.size
    ensures r.(resizing := it.resizing, handle := it.handle, pressSize := it.pressSize, anchor := it.anchor) == it
    ensures r.resizing <==> HandleAt(it, p, extent).Some?
    ensures r.resizing ==> r.handle == HandleAt(it, p, extent)
                           && r.anchor == Some(AnchorFor(it, r.handle.value))
                           && r.pressSize == Some(it.size)
  {
    match HandleAt(it, p, extent)
    case Some(i) =>
      it.(resizing := true, handle := Some(i), pressSize := Some(it.size), anchor := Some(AnchorFor(it, i)))
    case None => it.(resizing := false)
  }

  /** The mouse position a resize uses: pulled into the bounds, if any. */
  function ResizeTarget(it: Item, mouse: Point): (m: Point)
    ensures it.bounds.None? ==> m == mouse
    ensures it.bounds.Some? && it.bounds.value.w >= 0.0 && it.bounds.value.h >= 0.0 ==>
              it.bounds.value.Left() <= m.x <= it.bounds.value.Right()
              && it.bounds.value.Top() <= m.y <= it.bounds.value.Bottom()
  {
    match it.bounds
    case Some(b) => ClampPoint(mouse, b)
    case None => mouse
  }

  /** Re-shape the item to the rectangle spanned by `anchor` and the mouse. */
  function Reshape(it: Item, anchor: Point, mouse: Point): (r: Item)
    requires Valid(it) && it.resizing
    ensures Valid(r) && r.resizing && r.handle == it.handle && r.anchor == it.anchor
    ensures r.SceneRect() == Normalized(anchor, ResizeTarget(it, mouse))
    ensures r.bounds == it.bounds && r.pressSize == it.pressSize && r.inScene == it.inScene
  {
    var nr := Normalized(anchor, ResizeTarget(it, mouse));
    var moved := SetPos(it, nr.TopLeft());
    UpdateHandles(moved.(size := nr.GetSize()))
  }

  /**
    A move during a resize. The anchor is the scene corner remembered at the
    press, so the corner across from the dragged handle stays where it was
    for the whole gesture.
  */
  function ResizeMove(it: Item, mouse: Point): (r: Item)
    requires Valid(it) && it.resizing
    ensures Valid(r) && r.resizing && r.anchor == it.anchor
    ensures r.SceneRect() == Normalized(it.anchor.value, ResizeTarget(it, mouse))
    ensures r.SceneRect().HasCorner(it.anchor.value)
  {
    Reshape(it, it.anchor.value, mouse)
  }

  /**
    The move step as the item computes it: the anchor is the press-time
    corner mapped through the item's position now, which the previous step of
    the same gesture has already changed.
  */
  function ResizeMoveAsWritten(it: Item, mouse: Point): (r: Item)
    requires Valid(it) && it.resizing
    ensures Valid(r) && r.resizing
    ensures r.SceneRect() == Normalized(Add(it.pos, Corner(it.pressSize.value, Opposite(it.handle.value))),
                                        ResizeTarget(it, mouse))
  {
    Reshape(it, Add(it.pos, Corner(it.pressSize.value, Opposite(it.handle.value))), mouse)
  }

  /** The first step after a press is the same whether written or
      corrected: at the press, the press-time corner through the current
      position is the anchor. The two part only once a step has moved the item. */
  lemma FirstMoveAgrees(it: Item, p: Point, extent: real, mouse: Point)
    requires Valid(it) && HandleAt(it, p, extent).Some?
    ensures ResizeMoveAsWritten(Press(it, p, extent), mouse) == ResizeMove(Press(it, p, extent), mouse)
  {
  }

  /** A move as the item handles it: a resize step as written during a
      gesture, otherwise a drag to `dragTo`. */
  function MouseMoveAsWritten(it: Item, mouse: Point, dragTo: Point): (r: Item)
    requires Valid(it)
    ensures Valid(r) && r.resizing == it.resizing
    ensures !it.resizing ==> r == SetPos(it, dragTo)
    ensures it.resizing ==>
              r.SceneRect() == Normalized(Add(it.pos, Corner(it.pressSize.value, Opposite(it.handle.value))),
                                          ResizeTarget(it, mouse))
  {
    if it.resizing then ResizeMoveAsWritten(it, mouse) else SetPos(it, dragTo)
  }

  /** The corrected move: a resize step with the press-time anchor during a
      gesture, otherwise a drag to `dragTo`. */
  function MouseMove(it: Item, mouse: Point, dragTo: Point): (r: Item)
    requires Valid(it)
    ensures Valid(r) && r.resizing == it.resizing
    ensures !it.resizing ==> r == SetPos(it, dragTo)
    ensures it.resizing ==> r.SceneRect().HasCorner(it.anchor.value)
  {
    if it.resizing then ResizeMove(it, mouse) else SetPos(it, dragTo)
  }

  /** Release ends a resize; otherwise it is Qt's ordinary release. */
  function Release(it: Item): (r: Item)
    requires Valid(it)
    ensures Valid(r) && !r.resizing
    ensures it.resizing ==> r.handle.None? && r.cursor == Arrow
    ensures !it.resizing ==> r == it
    ensures r.SceneRect() == it.SceneRect()
  {
    if it.resizing then it.(resizing := false, handle := None, cursor := Arrow) else it
  }

  /** The moves of one gesture as the item makes them, in order. */
  function GestureAsWritten(it: Item, moves: seq<Point>): (r: Item)
    requires Valid(it) && it.resizing
    ensures Valid(r) && r.resizing
    ensures |moves| > 0 ==> r == ResizeMoveAsWritten(GestureAsWritten(it, moves[..|moves| - 1]), moves[|moves| - 1])
    decreases |moves|
  {
    if |moves| == 0 then it
    else
      var front := moves[..|moves| - 1];
      ResizeMoveAsWritten(GestureAsWritten(it, front), moves[|moves| - 1])
  }

  /** The moves of one gesture with the corrected step, applied in order. */
  function Gesture(it: Item, moves: seq<Point>): (r: Item)
    requires Valid(it) && it.resizing
    ensures Valid(r) && r.resizing && r.anchor == it.anchor
    decreases |moves|
  {
    if |moves| == 0 then it else Gesture(ResizeMove(it, moves[0]), moves[1..])
  }

  /**
    Pressing handle `i` and dragging through any sequence of points keeps the
    corner opposite `i`, as it was at the press, as a corner of the item; the
    item is the rectangle between that corner and the last mouse point position.
  */
  lemma {:induction false} GestureKeepsAnchor(it: Item, p: Point, extent: real, moves: seq<Point>)
    requires Valid(it) && HandleAt(it, p, extent).Some?
    requires |moves| > 0
    ensures var st := Press(it, p, extent);
            var fin := Gesture(st, moves);
            && fin.SceneRect().HasCorner(AnchorFor(it, HandleAt(it, p, extent).value))
            && fin.SceneRect() == Normalized(AnchorFor(it, HandleAt(it, p, extent).value),
                                             ResizeTarget(st, moves[|moves| - 1]))
  {
    var st := Press(it, p, extent);
    GestureEnds(st, moves);
  }

  lemma {:induction false} GestureEnds(st: Item, moves: seq<Point>)
    requires Valid(st) && st.resizing && |moves| > 0
    ensures Gesture(st, moves).SceneRect() == Normalized(st.anchor.value, ResizeTarget(st, moves[|moves| - 1]))
    decreases |moves|
  {
    var next := ResizeMove(st, moves[0]);
    if |moves| > 1 {
      GestureEnds(next, moves[1..]);
      assert moves[1..][|moves[1..]| - 1] == moves[|moves| - 1];
    }
    assert ResizeTarget(next, moves[|moves| - 1]) == ResizeTarget(st, moves[|moves| - 1]);
  }

  /** With the anchor inside the bounds, a resize never leaves the bounds. */
  lemma ResizeStaysInBounds(it: Item, mouse: Point)
    requires Valid(it) && it.resizing && it.bounds.Some?
    requires it.bounds.value.w >= 0.0 && it.bounds.value.h >= 0.0
    requires it.bounds.value.Contains(it.anchor.value)
    ensures it.bounds.value.Encloses(ResizeMove(it, mouse).SceneRect())
  {
    NormalizedWithin(it.anchor.value, ResizeTarget(it, mouse), it.bounds.value);
  }

  /** A drag of an item that fits its bounds keeps it inside them. */
  lemma DragStaysInBounds(it: Item, mouse: Point, dragTo: Point)
    requires Valid(it) && !it.resizing && it.inScene && it.bounds.Some?
    requires it.size.w <= it.bounds.value.w && it.size.h <= it.bounds.value.h
    ensures it.bounds.value.Encloses(MouseMove(it, mouse, dragTo).SceneRect())
  {
  }

  /** The item of the drift example: 10 x 10 at (100, 100), in a scene with a
      view, no bounds, no gesture in progress. */
  predicate IsDriftItem(it: Item) {
    && Valid(it) && !it.resizing && it.inScene && it.bounds.None?
    && it.pos == Point(100.0, 100.0) && it.size == Size(10.0, 10.0)
    && it.handles[0] == Point(0.0, 0.0)
  }

  lemma DriftItemExists()
    ensures IsDriftItem(NewItem(Point(100.0, 100.0), Size(10.0, 10.0), None, true).(inScene := true))
  {
  }

  /** The state right after a press on the top-left handle of the drift item. */
  predicate IsDriftPressed(st: Item) {
    && Valid(st) && st.resizing && st.inScene && st.bounds.None? && st.handle == Some(0)
    && st.pos == Point(100.0, 100.0) && st.pressSize == Some(Size(10.0, 10.0))
    && st.anchor == Some(Point(110.0, 110.0))
  }

  /** A press on the top-left handle of the drift item starts a resize from
      handle 0, anchored at the bottom-right corner (110, 110). */
  lemma DriftPress(it: Item)
    requires IsDriftItem(it)
    ensures IsDriftPressed(Press(it, Point(100.0, 100.0), 4.0))
  {
    assert HandleHit(it, 0, Point(100.0, 100.0), 4.0);
  }

  /** The state after the first move of the drift example. */
  predicate IsDriftAfterFirstMove(st: Item) {
    && Valid(st) && st.resizing && st.bounds.None? && st.handle == Some(0)
    && st.pos == Point(102.0, 102.0) && st.size == Size(8.0, 8.0)
    && st.pressSize == Some(Size(10.0, 10.0)) && st.anchor == Some(Point(110.0, 110.0))
  }

  /** The first move of the drift example: the item shrinks to 8 x 8 at (102, 102). */
  lemma DriftFirstMove(st: Item)
    requires IsDriftPressed(st)
    ensures IsDriftAfterFirstMove(ResizeMoveAsWritten(st, Point(102.0, 102.0)))
  {
    assert ResizeTarget(st, Point(102.0, 102.0)) == Point(102.0, 102.0);
    assert Add(st.pos, Corner(st.pressSize.value, Opposite(st.handle.value))) == Point(110.0, 110.0);
  }

  lemma DriftSecondMoveAsWritten(st: Item)
    requires IsDriftAfterFirstMove(st)
    ensures ResizeMoveAsWritten(st, Point(102.0, 102.0)).SceneRect() == Rect(102.0, 102.0, 10.0, 10.0)
  {
    assert ResizeTarget(st, Point(102.0, 102.0)) == Point(102.0, 102.0);
    assert Add(st.pos, Corner(st.pressSize.value, Opposite(st.handle.value))) == Point(112.0, 112.0);
  }

  lemma DriftSecondMoveCorrected(st: Item)
    requires IsDriftAfterFirstMove(st)
    ensures ResizeMove(st, Point(102.0, 102.0)).SceneRect() == Rect(102.0, 102.0, 8.0, 8.0)
  {
    assert ResizeTarget(st, Point(102.0, 102.0)) == Point(102.0, 102.0);
  }

  /**
    The anchor drift of the move step as written: a 10 x 10 item at
    (100, 100), resized from its top-left handle with the mouse held at
    (102, 102) for two moves, is first 8 x 8 and then 10 x 10; its
    bottom-right corner, which should stay at (110, 110), has moved to
    (112, 112). The corrected step leaves it at 8 x 8.
  */
  lemma AsWrittenAnchorDrifts(it: Item)
    requires IsDriftItem(it)
    ensures var once := ResizeMoveAsWritten(Press(it, Point(100.0, 100.0), 4.0), Point(102.0, 102.0));
            && ResizeMoveAsWritten(once, Point(102.0, 102.0)).SceneRect() == Rect(102.0, 102.0, 10.0, 10.0)
            && ResizeMove(once, Point(102.0, 102.0)).SceneRect() == Rect(102.0, 102.0, 8.0, 8.0)
  {
    DriftPress(it);
    DriftFirstMove(Press(it, Point(100.0, 100.0), 4.0));
    var once := ResizeMoveAsWritten(Press(it, Point(100.0, 100.0), 4.0), Point(102.0, 102.0));
    DriftSecondMoveAsWritten(once);
    DriftSecondMoveCorrected(once);
  }

  /** The item of the escape example: 100 x 100 at (100, 100), in a scene
      with a view, clamped to (0, 0, 200, 200), no gesture in progress. */
  predicate IsEscapeItem(it: Item) {
    && Valid(it) && !it.resizing && it.inScene
    && it.bounds == Some(Rect(0.0, 0.0, 200.0, 200.0))
    && it.pos == Point(100.0, 100.0) && it.size == Size(100.0, 100.0)
    && it.handles[0] == Point(0.0, 0.0)
  }

  lemma EscapeItemExists()
    ensures IsEscapeItem(NewItem(Point(100.0, 100.0), Size(100.0, 100.0), Some(Rect(0.0, 0.0, 200.0, 200.0)), true).(inScene := true))
  {
  }

  /** A press on the top-left handle of the escape item starts a resize from handle 0. */
  predicate IsEscapePressed(st: Item) {
    && Valid(st) && st.resizing && st.handle == Some(0)
    && st.bounds == Some(Rect(0.0, 0.0, 200.0, 200.0))
    && st.pos == Point(100.0, 100.0) && st.pressSize == Some(Size(100.0, 100.0))
    && st.anchor == Some(Point(200.0, 200.0))
  }

  lemma EscapePress(it: Item)
    requires IsEscapeItem(it)
    ensures IsEscapePressed(Press(it, Point(100.0, 100.0), 4.0))
  {
    assert HandleHit(it, 0, Point(100.0, 100.0), 4.0);
  }

  /** The state after the first move of the escape example, the same for
      both steps: 50 x 50 at (150, 150). */
  predicate IsEscapeAfterFirstMove(st: Item) {
    && Valid(st) && st.resizing && st.handle == Some(0)
    && st.bounds == Some(Rect(0.0, 0.0, 200.0, 200.0))
    && st.pos == Point(150.0, 150.0) && st.size == Size(50.0, 50.0)
    && st.pressSize == Some(Size(100.0, 100.0)) && st.anchor == Some(Point(200.0, 200.0))
  }

  lemma EscapeFirstMove(st: Item)
    requires IsEscapePressed(st)
    ensures IsEscapeAfterFirstMove(ResizeMoveAsWritten(st, Point(150.0, 150.0)))
    ensures ResizeMove(st, Point(150.0, 150.0)) == ResizeMoveAsWritten(st, Point(150.0, 150.0))
  {
    assert ResizeTarget(st, Point(150.0, 150.0)) == Point(150.0, 150.0);
  }

  lemma EscapeSecondMoveAsWritten(st: Item)
    requires IsEscapeAfterFirstMove(st)
    ensures ResizeMoveAsWritten(st, Point(150.0, 150.0)).SceneRect() == Rect(150.0, 150.0, 100.0, 100.0)
  {
    assert ResizeTarget(st, Point(150.0, 150.0)) == Point(150.0, 150.0);
    assert Add(st.pos, Corner(st.pressSize.value, Opposite(st.handle.value))) == Point(250.0, 250.0);
  }

  lemma EscapeSecondMoveCorrected(st: Item)
    requires IsEscapeAfterFirstMove(st)
    ensures ResizeMove(st, Point(150.0, 150.0)).SceneRect() == Rect(150.0, 150.0, 50.0, 50.0)
  {
    assert ResizeTarget(st, Point(150.0, 150.0)) == Point(150.0, 150.0);
  }

  /** Two moves to the same point, written or corrected, are two steps. */
  lemma TwoMoves(st: Item, m: Point)
    requires Valid(st) && st.resizing
    ensures GestureAsWritten(st, [m, m]) == ResizeMoveAsWritten(ResizeMoveAsWritten(st, m), m)
    ensures Gesture(st, [m, m]) == ResizeMove(ResizeMove(st, m), m)
  {
    assert [m, m][..1] == [m] && [m][..0] == [];
    assert [m, m][1..] == [m] && [m][1..] == [];
    var once := ResizeMove(st, m);
    assert Gesture(st, [m, m]) == Gesture(once, [m]);
    assert Gesture(once, [m]) == Gesture(ResizeMove(once, m), []);
  }

  /**
    The resize as written can leave the bounds, although the mouse is
    clamped into them. Press the escape item's top-left handle and hold the
    mouse at (150, 150) for two moves: the first gives 50 x 50 at (150, 150);
    the second maps the press-time corner (100, 100) through the new
    position to (250, 250), outside the bounds, and the item becomes
    100 x 100 at (150, 150), reaching 250 on both axes. The corrected gesture
    stays at 50 x 50, inside the bounds.
  */
  lemma AsWrittenResizeLeavesBounds(it: Item)
    requires IsEscapeItem(it)
    ensures var st := Press(it, Point(100.0, 100.0), 4.0);
            var moves := [Point(150.0, 150.0), Point(150.0, 150.0)];
            var b := Rect(0.0, 0.0, 200.0, 200.0);
            && st.resizing && st.bounds == Some(b) && b.Contains(st.anchor.value)
            && GestureAsWritten(st, moves).SceneRect() == Rect(150.0, 150.0, 100.0, 100.0)
            && !b.Encloses(GestureAsWritten(st, moves).SceneRect())
            && Gesture(st, moves).SceneRect() == Rect(150.0, 150.0, 50.0, 50.0)
            && b.Encloses(Gesture(st, moves).SceneRect())
  {
    EscapePress(it);
    var st := Press(it, Point(100.0, 100.0), 4.0);
    var m := Point(150.0, 150.0);
    EscapeFirstMove(st);
    TwoMoves(st, m);
    var once := ResizeMoveAsWritten(st, m);
    EscapeSecondMoveAsWritten(once);
    EscapeSecondMoveCorrected(once);
  }
}
