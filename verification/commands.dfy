/**
  The page-level undo commands: each has a `redo` (also its first run) and
  an `undo`, and acts on the page's scene and its hotspot counter.

  Commands that create items (batch add, paste) remember the items they
  made; their undo removes those items and forgets them, so the next redo
  builds fresh items with fresh identifiers.

  `Redo` and `Undo` set geometry as the code does, with
  `Scene.PlaceAsWritten`: `setPos` passes through the item's move clamp while
  the item still has its old size, then `setRect` sets the new size. The
  exact placement the commands evidently intend is `Scene.Place`, and the
  placement laws of module `Placement` (`GeometryRedo`, `PlaceAll`,
  `ScaleAll` and the round trips stated on them) are about that corrected
  placement. The `...AsWritten` lemmas here relate the two: they agree
  exactly when the clamp does not engage. The item sets the delete, batch
  add and paste commands work with are computed in module `ItemSets`.
*/
module Commands {
  import opened Options
  import opened Geometry
  import opened HotspotData
  import opened Scene
  import opened Ids
  import Interaction
  import opened Placement
  import opened ItemSets

  datatype PageState = PageState(scene: Scene, counter: nat)

  datatype Command =
    | GeometryChange(item: ItemRef, oldPos: Point, oldSize: Size, newPos: Point, newSize: Size)
    | BatchGeometry(snaps: seq<Snapshot>, changes: GeoChanges)
    | BatchScale(snaps: seq<Snapshot>, factor: real, mode: string)
    | DataChange(item: ItemRef, oldData: Data, newData: Data)
    | Delete(targets: seq<ItemRef>)
    | BatchAdd(descs: seq<Descriptor>, added: seq<ItemRef>)
    | Paste(entries: seq<ClipEntry>, at: Point, pasted: seq<ItemRef>)

  /** Every item the command names exists. */
  predicate Refers(c: Command, s: Scene) {
    match c
    case GeometryChange(r, _, _, _, _) => r in s.items
    case BatchGeometry(snaps, _) => AllIn(Refs(snaps), s)
    case BatchScale(snaps, _, _) => AllIn(Refs(snaps), s)
    case DataChange(r, _, _) => r in s.items
    case Delete(targets) => AllIn(targets, s)
    case BatchAdd(_, added) => AllIn(added, s)
    case Paste(_, _, pasted) => AllIn(pasted, s)
  }

  // ------------------------------------------------------ redo and undo

  /**
    Run a command forwards. `ctx` names the page of the session that owns
    the command's view (no page when that view has no session).
  */
  function Redo(c: Command, st: PageState, ctx: IdContext): (r: (Command, PageState))
    requires Valid(st.scene) && Refers(c, st.scene)
    ensures Valid(r.1.scene) && Refers(r.0, r.1.scene)
    ensures r.1.counter >= st.counter
    ensures r.1.scene.items.Keys >= st.scene.items.Keys
  {
    var s := st.scene;
    match c
    case GeometryChange(r, _, _, newPos, newSize) =>
      (c, st.(scene := PlaceAsWritten(s, r, newPos, newSize)))
    case BatchGeometry(snaps, ch) =>
      (c, st.(scene := PlaceAllAsWritten(s, EditAll(snaps, ch))))
    case BatchScale(snaps, factor, mode) =>
      (c, st.(scene := ScaleAllAsWritten(s, snaps, factor, mode)))
    case DataChange(r, _, newData) =>
      (c, st.(scene := SetData(s, r, newData)))
    case Delete(targets) =>
      (c, st.(scene := RemoveAll(s, targets)))
    case BatchAdd(descs, added) =>
      if |added| > 0 then (c, st.(scene := AddBack(s, added)))
      else if ctx.page.None? then (c, st)
      else
        var (s1, counter, refs) := AddDescribed(s, st.counter, ctx, descs);
        assert AllIn(refs, s1);
        (BatchAdd(descs, refs), PageState(s1, counter))
    case Paste(entries, at, pasted) =>
      var cleared := ClearSelection(s);
      if |pasted| > 0 then (c, st.(scene := RestoreAll(cleared, pasted)))
      else
        var (s1, counter, refs) := PasteEntries(cleared, st.counter, ctx, entries, at, 0);
        assert AllIn(refs, s1);
        (Paste(entries, at, refs), PageState(s1, counter))
  }

  /** Add each item back without touching the selection. */
  function AddBack(s: Scene, rs: seq<ItemRef>): (t: Scene)
    requires Valid(s) && AllIn(rs, s)
    ensures Valid(t) && t.items == s.items && t.selected == s.selected && t.nextRef == s.nextRef
    ensures t.members == s.members + set x | x in rs
    decreases |rs|
  {
    if |rs| == 0 then s
    else
      var t := AddBack(AddItem(s, rs[0]), rs[1..]);
      assert (set x | x in rs) == {rs[0]} + set x | x in rs[1..];
      t
  }

  /** Run a command backwards. */
  function Undo(c: Command, st: PageState): (r: (Command, PageState))
    requires Valid(st.scene) && Refers(c, st.scene)
    ensures Valid(r.1.scene) && Refers(r.0, r.1.scene)
    ensures r.1.counter == st.counter
    ensures r.1.scene.items.Keys == st.scene.items.Keys
  {
    var s := st.scene;
    match c
    case GeometryChange(r, oldPos, oldSize, _, _) =>
      (c, st.(scene := GeometryUndoAsWritten(s, r, oldPos, oldSize)))
    case BatchGeometry(snaps, _) =>
      (c, st.(scene := PlaceAllAsWritten(s, snaps)))
    case BatchScale(snaps, _, _) =>
      (c, st.(scene := PlaceAllAsWritten(s, snaps)))
    case DataChange(r, oldData, _) =>
      (c, st.(scene := SetData(s, r, oldData)))
    case Delete(targets) =>
      (c, st.(scene := RestoreAll(s, targets)))
    case BatchAdd(descs, added) =>
      (BatchAdd(descs, []), st.(scene := RemoveAll(s, added)))
    case Paste(entries, at, pasted) =>
      (Paste(entries, at, []), st.(scene := RemoveAll(s, pasted)))
  }

  /**
    The geometry change as the code runs it. Redo gives the item the new
    size, and the new position exactly when the move clamp leaves it alone
    against the old size; otherwise the clamped position. The redo equals
    the corrected one exactly then. When the undo's clamp, against the new
    size, is idle too, undo restores the page.
  */
  lemma GeometryChangeAsWritten(st: PageState, r: ItemRef, newPos: Point, newSize: Size, ctx: IdContext)
    requires Valid(st.scene) && r in st.scene.items
    ensures var s := st.scene;
            var h := s.items[r];
            var c := GeometryChange(r, h.pos, h.size, newPos, newSize);
            var t := Redo(c, st, ctx);
            && t.0 == c && t.1.counter == st.counter
            && t.1.scene.items[r] == h.(pos := Landing(s, r, newPos), size := newSize)
            && (forall q :: q in s.items && q != r ==> t.1.scene.items[q] == s.items[q])
            && (t.1.scene == GeometryRedo(s, r, newPos, newSize) <==> ClampIdle(s, r, newPos))
            && (ClampIdle(s, r, newPos) && ClampIdle(t.1.scene, r, h.pos) ==> Undo(t.0, t.1).1 == st)
  {
    var s := st.scene;
    var h := s.items[r];
    if ClampIdle(s, r, newPos) {
      var t := GeometryRedo(s, r, newPos, newSize);
      if ClampIdle(t, r, h.pos) {
        GeometryChangeRoundTrip(s, r, newPos, newSize);
      }
    }
  }

  /** The item of the geometry examples: item 0, 50 x 50, in the scene and
      clamped to (0, 0, 200, 200), at `pos`. */
  predicate IsClampExample(s: Scene, pos: Point) {
    && Valid(s) && 0 in s.members
    && s.items[0].pos == pos && s.items[0].size == Size(50.0, 50.0)
    && s.items[0].bounds == Some(Rect(0.0, 0.0, 200.0, 200.0))
  }

  /**
    Typing (180, 180), 10 x 10 for the example item at the origin: the
    redo's `setPos` is clamped against the 50 x 50 size still in force, so
    the item lands at (150, 150); the corrected redo puts it at (180, 180).
  */
  lemma AsWrittenRedoMisplaces(st: PageState, ctx: IdContext)
    requires IsClampExample(st.scene, Point(0.0, 0.0))
    ensures var c := GeometryChange(0, Point(0.0, 0.0), Size(50.0, 50.0), Point(180.0, 180.0), Size(10.0, 10.0));
            && Redo(c, st, ctx).1.scene.items[0].pos == Point(150.0, 150.0)
            && GeometryRedo(st.scene, 0, Point(180.0, 180.0), Size(10.0, 10.0)).items[0].pos == Point(180.0, 180.0)
  {
    assert Landing(st.scene, 0, Point(180.0, 180.0)) == Point(150.0, 150.0);
  }

  /**
    Growing the example item at (150, 150) to 100 x 100 at (10, 10) and
    undoing it: the undo's `setPos((150, 150))` is clamped against the
    100 x 100 size still in force, so the item comes back at (100, 100)
    instead of (150, 150). The corrected undo restores the page.
  */
  lemma AsWrittenUndoMisplaces(st: PageState, ctx: IdContext)
    requires IsClampExample(st.scene, Point(150.0, 150.0))
    ensures var c := GeometryChange(0, Point(150.0, 150.0), Size(50.0, 50.0), Point(10.0, 10.0), Size(100.0, 100.0));
            var t := Redo(c, st, ctx);
            && t.1.scene.items[0].pos == Point(10.0, 10.0)
            && Undo(t.0, t.1).1.scene.items[0].pos == Point(100.0, 100.0)
            && Place(GeometryRedo(st.scene, 0, Point(10.0, 10.0), Size(100.0, 100.0)), 0, Point(150.0, 150.0), Size(50.0, 50.0)) == st.scene
  {
    var c := GeometryChange(0, Point(150.0, 150.0), Size(50.0, 50.0), Point(10.0, 10.0), Size(100.0, 100.0));
    assert Landing(st.scene, 0, Point(10.0, 10.0)) == Point(10.0, 10.0);
    var t := Redo(c, st, ctx);
    assert Landing(t.1.scene, 0, Point(150.0, 150.0)) == Point(100.0, 100.0);
    GeometryChangeRoundTrip(st.scene, 0, Point(10.0, 10.0), Size(100.0, 100.0));
  }

  /**
    The batch edit as the code runs it, built from the items' current
    geometry. Each item takes its edited size and the position the clamp
    makes of its edited position against its size before the edit; other
    items are untouched. When no clamp engages the redo is the corrected
    one, and when the undo's clamps are idle too the undo restores the page.
  */
  lemma BatchGeometryAsWritten(st: PageState, rs: seq<ItemRef>, ch: GeoChanges, ctx: IdContext)
    requires Valid(st.scene) && AllIn(rs, st.scene) && Distinct(rs)
    ensures var s := st.scene;
            var snaps := Snap(s, rs);
            var es := EditAll(snaps, ch);
            var c := BatchGeometry(snaps, ch);
            var t := Redo(c, st, ctx);
            && t.0 == c && t.1.counter == st.counter
            && (forall k :: 0 <= k < |rs| ==>
                  t.1.scene.items[rs[k]] == s.items[rs[k]].(pos := Landing(s, rs[k], es[k].pos), size := es[k].size))
            && (forall q :: q in s.items && q !in rs ==> t.1.scene.items[q] == s.items[q])
            && (Unclamped(s, es) ==> t.1.scene == PlaceAll(s, es))
            && (Unclamped(s, es) && Unclamped(t.1.scene, snaps) ==> Undo(t.0, t.1).1 == st)
  {
    var s := st.scene;
    var snaps := Snap(s, rs);
    var es := EditAll(snaps, ch);
    PlaceAllAsWrittenEffect(s, es);
    forall k | 0 <= k < |rs| ensures es[k].item == rs[k] {
      assert Refs(es)[k] == rs[k];
    }
    if Unclamped(s, es) {
      PlaceAllAsWrittenExact(s, es);
      var t := PlaceAll(s, es);
      if Unclamped(t, snaps) {
        PlaceAllAsWrittenExact(t, snaps);
        BatchGeometryRoundTrip(s, rs, ch);
      }
    }
  }

  /**
    Widening the example item at (150, 150) to 100 by a batch edit and
    undoing it: the undo's `setPos((150, 150))` is clamped against the
    width 100 still in force, so the item comes back at (100, 150). The
    corrected undo restores the page.
  */
  lemma AsWrittenBatchUndoMisplaces(st: PageState, ctx: IdContext)
    requires IsClampExample(st.scene, Point(150.0, 150.0))
    ensures var ch := GeoChanges(None, None, Some(100.0), None);
            var c := BatchGeometry(Snap(st.scene, [0]), ch);
            var t := Redo(c, st, ctx);
            && t.1.scene.items[0].pos == Point(150.0, 150.0) && t.1.scene.items[0].size == Size(100.0, 50.0)
            && Undo(t.0, t.1).1.scene.items[0].pos == Point(100.0, 150.0)
            && PlaceAll(PlaceAll(st.scene, EditAll(Snap(st.scene, [0]), ch)), Snap(st.scene, [0])) == st.scene
  {
    var snaps := Snap(st.scene, [0]);
    var ch := GeoChanges(None, None, Some(100.0), None);
    BatchGeometryAsWritten(st, [0], ch, ctx);
    assert Landing(st.scene, 0, Point(150.0, 150.0)) == Point(150.0, 150.0);
    var t := Redo(BatchGeometry(snaps, ch), st, ctx);
    assert Refs(snaps) == [0];
    PlaceAllAsWrittenEffect(t.1.scene, snaps);
    assert Landing(t.1.scene, 0, Point(150.0, 150.0)) == Point(100.0, 150.0);
    BatchGeometryRoundTrip(st.scene, [0], ch);
  }

  /**
    The batch scale as the code runs it, built from the items' current
    geometry. Each item takes its scaled size and the position the clamp
    makes of its centred position against its unscaled size; other items
    are untouched. An item keeps its centre exactly when its clamp is idle.
    When no clamp engages the redo is the corrected one, and when the undo's
    clamps are idle too the undo restores the page.
  */
  lemma BatchScaleAsWritten(st: PageState, rs: seq<ItemRef>, factor: real, mode: string, ctx: IdContext)
    requires Valid(st.scene) && AllIn(rs, st.scene) && Distinct(rs)
    ensures var s := st.scene;
            var snaps := Snap(s, rs);
            var ps := ScaleTargets(s, snaps, factor, mode);
            var c := BatchScale(snaps, factor, mode);
            var t := Redo(c, st, ctx);
            && t.0 == c && t.1.counter == st.counter
            && (forall k :: 0 <= k < |rs| ==>
                  && t.1.scene.items[rs[k]] == s.items[rs[k]].(pos := Landing(s, rs[k], ps[k].pos), size := ps[k].size)
                  && (Center(RectAt(t.1.scene.items[rs[k]].pos, t.1.scene.items[rs[k]].size))
                        == Center(RectAt(s.items[rs[k]].pos, s.items[rs[k]].size))
                      <==> ClampIdle(s, rs[k], ps[k].pos)))
            && (forall q :: q in s.items && q !in rs ==> t.1.scene.items[q] == s.items[q])
            && (Unclamped(s, ps) ==> t.1.scene == ScaleAll(s, snaps, factor, mode))
            && (Unclamped(s, ps) && Unclamped(t.1.scene, snaps) ==> Undo(t.0, t.1).1 == st)
  {
    var s := st.scene;
    var snaps := Snap(s, rs);
    var ps := ScaleTargets(s, snaps, factor, mode);
    ScaleAllAsWrittenIsPlaceAll(s, snaps, factor, mode);
    PlaceAllAsWrittenEffect(s, ps);
    forall k | 0 <= k < |rs| ensures ps[k].item == rs[k] && snaps[k].item == rs[k] {
      assert snaps[k].item == rs[k];
    }
    if Unclamped(s, ps) {
      PlaceAllAsWrittenExact(s, ps);
      ScaleAllIsPlaceAll(s, snaps, factor, mode);
      var t := PlaceAll(s, ps);
      if Unclamped(t, snaps) {
        PlaceAllAsWrittenExact(t, snaps);
        BatchScaleRoundTrip(s, rs, factor, mode);
      }
    }
  }

  /** The item of the scale example: item 0 at (100, 100), 100 x 100, in the
      scene and clamped to (0, 0, 200, 200). */
  predicate IsScaleExample(s: Scene) {
    && Valid(s) && 0 in s.members
    && s.items[0].pos == Point(100.0, 100.0) && s.items[0].size == Size(100.0, 100.0)
    && s.items[0].bounds == Some(Rect(0.0, 0.0, 200.0, 200.0))
  }

  /**
    Halving the example item overall: its centre is (150, 150), so the new
    top-left is (125, 125), but that `setPos` is clamped against the
    unscaled 100 x 100 size and lands at (100, 100). The item ends 50 x 50
    with its centre at (125, 125); the corrected scale keeps (150, 150).
  */
  lemma AsWrittenScaleMovesCentre(st: PageState, ctx: IdContext)
    requires IsScaleExample(st.scene)
    ensures var c := BatchScale(Snap(st.scene, [0]), 0.5, "overall");
            var h := Redo(c, st, ctx).1.scene.items[0];
            var g := ScaleAll(st.scene, Snap(st.scene, [0]), 0.5, "overall").items[0];
            && h.pos == Point(100.0, 100.0) && h.size == Size(50.0, 50.0)
            && Center(RectAt(h.pos, h.size)) == Point(125.0, 125.0)
            && Center(RectAt(g.pos, g.size)) == Point(150.0, 150.0)
  {
    BatchScaleAsWritten(st, [0], 0.5, "overall", ctx);
    ScaleKeepsCenters(st.scene, [0], 0.5, "overall");
    assert ScaledSize(Size(100.0, 100.0), 0.5, "overall") == Size(50.0, 50.0);
    assert CenteredPos(Point(100.0, 100.0), Size(100.0, 100.0), Size(50.0, 50.0)) == Point(125.0, 125.0);
    assert Landing(st.scene, 0, Point(125.0, 125.0)) == Point(100.0, 100.0);
  }

  /** A data change built from the item's current data sets the new data and
      nothing else; undo restores the page, and redo after undo repeats the
      first redo. */
  lemma DataChangeRoundTrip(st: PageState, item: ItemRef, newData: Data, ctx: IdContext)
    requires Valid(st.scene) && item in st.scene.items
    ensures var c := DataChange(item, st.scene.items[item].data, newData);
            var r := Redo(c, st, ctx);
            && r.1.scene.items[item].data == newData
            && r.1.scene.items[item].pos == st.scene.items[item].pos
            && r.1.scene.items[item].size == st.scene.items[item].size
            && (forall q :: q in st.scene.items && q != item ==> r.1.scene.items[q] == st.scene.items[q])
            && Undo(r.0, r.1).1 == st
            && Redo(c, Undo(r.0, r.1).1, ctx) == r
  {
    assert st.scene.items[item := st.scene.items[item]] == st.scene.items;
  }

  /** Deleting items of the page leaves none of them in the scene; undo shows
      the page as it was, with the deleted items selected. */
  lemma DeleteCommandRoundTrip(st: PageState, rs: seq<ItemRef>, ctx: IdContext)
    requires Valid(st.scene) && forall i :: 0 <= i < |rs| ==> rs[i] in st.scene.members
    ensures var r := Redo(Delete(rs), st, ctx);
            && (forall i :: 0 <= i < |rs| ==> rs[i] !in r.1.scene.members)
            && r.1.scene.items == st.scene.items
            && var u := Undo(r.0, r.1);
               && Visible(u.1.scene) == Visible(st.scene)
               && u.1.scene.selected == st.scene.selected + set x | x in rs
  {
    DeleteRoundTrip(st.scene, rs);
  }

  /** With no session the batch add does nothing. */
  lemma BatchAddWithoutSession(st: PageState, ds: seq<Descriptor>, ctx: IdContext)
    requires Valid(st.scene) && ctx.page.None?
    ensures Redo(BatchAdd(ds, []), st, ctx) == (BatchAdd(ds, []), st)
  {
  }

  /** The first redo of a batch add with a session makes one fresh item per
      descriptor, built and named from it, adds them all to the scene and
      keeps everything else; one counter value is used per named item. */
  lemma BatchAddRedo(st: PageState, ds: seq<Descriptor>, ctx: IdContext)
    requires Valid(st.scene) && ctx.page.Some?
    ensures var r := Redo(BatchAdd(ds, []), st, ctx);
            && r.0.BatchAdd? && r.0.descs == ds && |r.0.added| == |ds|
            && (forall i :: 0 <= i < |ds| ==>
                  && r.0.added[i] !in st.scene.items
                  && r.1.scene.items[r.0.added[i]] == DescribedItem(ds[i], st.scene.sceneRect, IdAt(ctx, st.counter, i)))
            && (forall q :: q in st.scene.items ==> r.1.scene.items[q] == st.scene.items[q])
            && r.1.scene.members == st.scene.members + (set x | x in r.0.added)
            && r.1.scene.selected == st.scene.selected
            && r.1.counter == st.counter + (if ctx.CanName() then |ds| else 0)
  {
    var a := AddDescribed(st.scene, st.counter, ctx, ds);
    assert Redo(BatchAdd(ds, []), st, ctx) == (BatchAdd(ds, a.2), PageState(a.0, a.1));
    AddDescribedKeeps(st.scene, st.counter, ctx, ds);
    AddDescribedItems(st.scene, st.counter, ctx, ds);
    AddDescribedCounter(st.scene, st.counter, ctx, ds);
  }

  /** Undoing a batch add shows the page as it was and forgets the items, but
      keeps the counter where the redo left it. */
  lemma BatchAddRoundTrip(st: PageState, ds: seq<Descriptor>, ctx: IdContext)
    requires Valid(st.scene)
    ensures var r := Redo(BatchAdd(ds, []), st, ctx);
            var u := Undo(r.0, r.1);
            && u.0 == BatchAdd(ds, [])
            && Visible(u.1.scene) == Visible(st.scene)
            && u.1.scene.selected == st.scene.selected
            && u.1.counter == r.1.counter >= st.counter
  {
    if ctx.page.Some? {
      BatchAddRedo(st, ds, ctx);
    }
  }

  /** A redo after an undo builds new items whose identifiers differ from
      every identifier the first redo handed out. */
  lemma BatchAddRedoAfterUndoFreshIds(st: PageState, ds: seq<Descriptor>, ctx: IdContext, i: nat, j: nat)
    requires Valid(st.scene) && ctx.CanName() && i < |ds| && j < |ds|
    ensures var r := Redo(BatchAdd(ds, []), st, ctx);
            var u := Undo(r.0, r.1);
            var r2 := Redo(u.0, u.1, ctx);
            && |r2.0.added| == |ds|
            && r2.1.scene.items[r2.0.added[j]].data.id != r.1.scene.items[r.0.added[i]].data.id
  {
    var r := Redo(BatchAdd(ds, []), st, ctx);
    BatchAddRedo(st, ds, ctx);
    var u := Undo(r.0, r.1);
    BatchAddRoundTrip(st, ds, ctx);
    var r2 := Redo(u.0, u.1, ctx);
    BatchAddRedo(u.1, ds, ctx);
    assert r.1.scene.items[r.0.added[i]].data.id == IdAt(ctx, st.counter, i);
    assert r2.1.scene.items[r2.0.added[j]].data.id == IdAt(ctx, r.1.counter, j);
    IdAtDistinct(ctx, st.counter, i, r.1.counter, j);
  }

  /** Identifiers drawn from counter values that differ are different. */
  lemma IdAtDistinct(ctx: IdContext, c1: nat, i: nat, c2: nat, j: nat)
    requires ctx.CanName() && c1 + i < c2
    ensures IdAt(ctx, c2, j) != IdAt(ctx, c1, i)
  {
    var page := ctx.page.value;
    if FormatId(ctx.projectId, page, c2 + j) == FormatId(ctx.projectId, page, c1 + i) {
      FormatIdInjective(ctx.projectId, page, c2 + j, page, c1 + i);
    }
  }

  /** The first redo of a paste clears the selection, then makes one fresh
      item per entry, staggered by 10 on both axes, named when the session can
      name it, added to the scene and selected. */
  lemma PasteRedo(st: PageState, es: seq<ClipEntry>, at: Point, ctx: IdContext)
    requires Valid(st.scene)
    ensures var r := Redo(Paste(es, at, []), st, ctx);
            && r.0.Paste? && r.0.entries == es && r.0.at == at && |r.0.pasted| == |es|
            && (forall i :: 0 <= i < |es| ==>
                  && r.0.pasted[i] !in st.scene.items
                  && r.1.scene.items[r.0.pasted[i]] == PastedItem(es[i], at, i, st.scene.sceneRect, ctx, IdAt(ctx, st.counter, i)))
            && (forall q :: q in st.scene.items ==> r.1.scene.items[q] == st.scene.items[q])
            && r.1.scene.members == st.scene.members + (set x | x in r.0.pasted)
            && r.1.scene.selected == set x | x in r.0.pasted
            && r.1.counter == st.counter + (if ctx.CanName() then |es| else 0)
  {
    var cleared := ClearSelection(st.scene);
    var p := PasteEntries(cleared, st.counter, ctx, es, at, 0);
    assert Redo(Paste(es, at, []), st, ctx) == (Paste(es, at, p.2), PageState(p.0, p.1));
    PasteEntriesKeeps(cleared, st.counter, ctx, es, at, 0);
    PasteEntriesItems(cleared, st.counter, ctx, es, at, 0);
    PasteEntriesCounter(cleared, st.counter, ctx, es, at, 0);
  }

  /** Undoing a paste shows the page's items as they were, with nothing
      selected, and keeps the counter where the redo left it. */
  lemma PasteRoundTrip(st: PageState, es: seq<ClipEntry>, at: Point, ctx: IdContext)
    requires Valid(st.scene)
    ensures var r := Redo(Paste(es, at, []), st, ctx);
            var u := Undo(r.0, r.1);
            && u.0 == Paste(es, at, [])
            && Visible(u.1.scene) == Visible(st.scene)
            && u.1.scene.selected == {}
            && u.1.counter == r.1.counter >= st.counter
  {
    PasteRedo(st, es, at, ctx);
  }
}
