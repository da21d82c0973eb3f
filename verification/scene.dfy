/**
  A page's graphics scene as the undo commands see it. Hotspot items are
  objects that outlive their membership in the scene (a command that removes
  an item keeps it so that undo can put it back), so items live in a heap
  `items` keyed by reference, and the scene proper is the set `members` of
  references currently added, with the selected ones in `selected`.
*/
module Scene {
  import opened Options
  import opened Geometry
  import opened HotspotData
  import Interaction

  type ItemRef = nat

  datatype Shape = Rectangle | Ellipse

  /** A hotspot item: shape, position, local size `(0, 0, w, h)`, data record
      and the bounds its moves are clamped to. */
  datatype Hotspot = Hotspot(shape: Shape, pos: Point, size: Size, data: Data, bounds: Option<Rect>)

  datatype Scene = Scene(
    items: map<ItemRef, Hotspot>,
    members: set<ItemRef>,
    selected: set<ItemRef>,
    nextRef: ItemRef,
    sceneRect: Rect)

  predicate Valid(s: Scene) {
    && s.members <= s.items.Keys
    && s.selected <= s.members
    && forall r :: r in s.items ==> r < s.nextRef
  }

  /** What the scene shows: the member items and their state. */
  function Visible(s: Scene): (v: map<ItemRef, Hotspot>)
    requires Valid(s)
    ensures v.Keys == s.members
  {
    map r | r in s.members :: s.items[r]
  }

  /** Build a new item; it is not yet in the scene. */
  function Create(s: Scene, h: Hotspot): (r: (Scene, ItemRef))
    requires Valid(s)
    ensures Valid(r.0) && r.1 !in s.items
    ensures r.0.items == s.items[r.1 := h]
    ensures r.0.members == s.members && r.0.selected == s.selected && r.0.sceneRect == s.sceneRect
    ensures r.0.nextRef > s.nextRef
  {
    (s.(items := s.items[s.nextRef := h], nextRef := s.nextRef + 1), s.nextRef)
  }

  /** `addItem`: adding an item that is already a member changes nothing. */
  function AddItem(s: Scene, r: ItemRef): (t: Scene)
    requires Valid(s) && r in s.items
    ensures Valid(t) && t.members == s.members + {r}
    ensures t == s.(members := t.members)
  {
    s.(members := s.members + {r})
  }

  /** `removeItem`: the item leaves the scene and its selection. */
  function RemoveItem(s: Scene, r: ItemRef): (t: Scene)
    requires Valid(s)
    ensures Valid(t) && t.members == s.members - {r} && t.selected == s.selected - {r}
    ensures t.items == s.items && t.nextRef == s.nextRef && t.sceneRect == s.sceneRect
  {
    s.(members := s.members - {r}, selected := s.selected - {r})
  }

  /** `setSelected(b)` on an item; only a member can join the selection. */
  function SetSelected(s: Scene, r: ItemRef, b: bool): (t: Scene)
    requires Valid(s)
    ensures Valid(t) && t == s.(selected := t.selected)
    ensures b && r in s.members ==> t.selected == s.selected + {r}
    ensures !(b && r in s.members) ==> t.selected == s.selected - {r}
  {
    s.(selected := if b && r in s.members then s.selected + {r} else s.selected - {r})
  }

  function ClearSelection(s: Scene): (t: Scene)
    requires Valid(s)
    ensures Valid(t) && t == s.(selected := {})
  {
    s.(selected := {})
  }

  /** The geometry a command means to give an item: exactly `pos` and `size`. */
  function Place(s: Scene, r: ItemRef, pos: Point, size: Size): (t: Scene)
    requires Valid(s) && r in s.items
    ensures Valid(t) && t.items == s.items[r := s.items[r].(pos := pos, size := size)]
    ensures t.members == s.members && t.selected == s.selected && t.nextRef == s.nextRef
    ensures t.sceneRect == s.sceneRect
  {
    s.(items := s.items[r := s.items[r].(pos := pos, size := size)])
  }

  /**
    The move clamp leaves a `setPos(pos)` on `r` alone: the item is outside
    the scene, has no bounds, or would lie inside them at its current size.
  */
  predicate ClampIdle(s: Scene, r: ItemRef, pos: Point)
    requires r in s.items
  {
    var h := s.items[r];
    r !in s.members || h.bounds.None? || h.bounds.value.Encloses(RectAt(pos, h.size))
  }

  /** Where `setPos(pos)` puts `r`: while the item is in the scene the
      position passes through the move clamp, which sees the item's size as
      it is at that moment. */
  function Landing(s: Scene, r: ItemRef, pos: Point): (p: Point)
    requires r in s.items
    ensures r !in s.members ==> p == pos
    ensures r in s.members ==> p == Interaction.PositionChange(pos, s.items[r].size, s.items[r].bounds, false)
    ensures p == pos <==> ClampIdle(s, r, pos)
  {
    var h := s.items[r];
    if r in s.members then Interaction.PositionChange(pos, h.size, h.bounds, false) else pos
  }

  /**
    `setPos(pos)` followed by `setRect(0, 0, w, h)` as the commands issue
    them: the position lands where the clamp puts it against the item's old
    size, and only then does the size change.
  */
  function PlaceAsWritten(s: Scene, r: ItemRef, pos: Point, size: Size): (t: Scene)
    requires Valid(s) && r in s.items
    ensures Valid(t) && t.items.Keys == s.items.Keys && t.items[r].size == size
    ensures t == Place(s, r, Landing(s, r, pos), size)
    ensures ClampIdle(s, r, pos) <==> t == Place(s, r, pos, size)
  {
    Place(s, r, Landing(s, r, pos), size)
  }

  /** `setData(0, d)`. */
  function SetData(s: Scene, r: ItemRef, d: Data): (t: Scene)
    requires Valid(s) && r in s.items
    ensures Valid(t) && t.items == s.items[r := s.items[r].(data := d)]
    ensures t.members == s.members && t.selected == s.selected && t.nextRef == s.nextRef
  {
    s.(items := s.items[r := s.items[r].(data := d)])
  }
}
