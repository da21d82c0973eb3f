/**
  Geometry as the page commands set it: snapshots of items' geometry, the
  placement of a sequence of snapshots, and the geometry-change, batch-edit
  and batch-scale computations built on it.

  Each placement comes in two forms. `PlaceAll` (with `Scene.Place`) sets
  exactly the recorded geometry, as the commands evidently intend.
  `PlaceAllAsWritten` (with `Scene.PlaceAsWritten`) is what the code does:
  `setPos` passes through the item's move clamp while the item still has its
  old size, then `setRect` sets the new size. `PlaceAllAsWrittenExact` says
  the two agree when no clamp engages; the placement laws here are stated
  on the corrected form.
*/
module Placement {
  import opened Options
  import opened Geometry
  import opened Scene

  /** An item's geometry as a command recorded it. */
  datatype Snapshot = Snapshot(item: ItemRef, pos: Point, size: Size)

  /** The coordinates a batch edit sets; an absent one is left as it was. */
  datatype GeoChanges = GeoChanges(x: Option<real>, y: Option<real>, w: Option<real>, h: Option<real>)

  function Refs(snaps: seq<Snapshot>): (rs: seq<ItemRef>)
    ensures |rs| == |snaps|
    ensures forall i :: 0 <= i < |snaps| ==> rs[i] == snaps[i].item
  {
    seq(|snaps|, i requires 0 <= i < |snaps| => snaps[i].item)
  }

  predicate Distinct<T(==)>(xs: seq<T>) {
    forall i, j :: 0 <= i < |xs| && 0 <= j < |xs| && i != j ==> xs[i] != xs[j]
  }

  predicate AllIn(rs: seq<ItemRef>, s: Scene) {
    forall i :: 0 <= i < |rs| ==> rs[i] in s.items
  }

  /** The snapshots of `rs` in scene `s`, as a command takes them when built. */
  function Snap(s: Scene, rs: seq<ItemRef>): (snaps: seq<Snapshot>)
    requires AllIn(rs, s)
    ensures Refs(snaps) == rs
    ensures forall i :: 0 <= i < |rs| ==> snaps[i] == Snapshot(rs[i], s.items[rs[i]].pos, s.items[rs[i]].size)
  {
    seq(|rs|, i requires 0 <= i < |rs| => Snapshot(rs[i], s.items[rs[i]].pos, s.items[rs[i]].size))
  }

  // ---------------------------------------------------------- placements

  /** Place each snapshot's item at the snapshot's geometry, in order. */
  function PlaceAll(s: Scene, ps: seq<Snapshot>): (t: Scene)
    requires Valid(s) && AllIn(Refs(ps), s)
    ensures Valid(t) && t.items.Keys == s.items.Keys
    ensures t.members == s.members && t.selected == s.selected && t.nextRef == s.nextRef
    ensures t.sceneRect == s.sceneRect
    decreases |ps|
  {
    if |ps| == 0 then s
    else
      assert ps[0].item == Refs(ps)[0];
      var s1 := Place(s, ps[0].item, ps[0].pos, ps[0].size);
      assert forall i :: 0 <= i < |ps[1..]| ==> Refs(ps[1..])[i] == Refs(ps)[i + 1];
      PlaceAll(s1, ps[1..])
  }

  /** With no item placed twice, each placed item ends at its snapshot's
      geometry and every other item is untouched. */
  lemma {:induction false} PlaceAllEffect(s: Scene, ps: seq<Snapshot>)
    requires Valid(s) && AllIn(Refs(ps), s) && Distinct(Refs(ps))
    ensures forall r :: r in s.items && r !in Refs(ps) ==> PlaceAll(s, ps).items[r] == s.items[r]
    ensures forall k :: 0 <= k < |ps| ==>
              PlaceAll(s, ps).items[ps[k].item] == s.items[ps[k].item].(pos := ps[k].pos, size := ps[k].size)
    decreases |ps|
  {
    if |ps| > 0 {
      assert ps[0].item == Refs(ps)[0];
      var s1 := Place(s, ps[0].item, ps[0].pos, ps[0].size);
      assert forall i :: 0 <= i < |ps[1..]| ==> Refs(ps[1..])[i] == Refs(ps)[i + 1];
      assert Refs(ps[1..]) == Refs(ps)[1..];
      PlaceAllEffect(s1, ps[1..]);
      forall k | 0 <= k < |ps|
        ensures PlaceAll(s, ps).items[ps[k].item] == s.items[ps[k].item].(pos := ps[k].pos, size := ps[k].size)
      {
        if k > 0 {
          assert ps[k] == ps[1..][k - 1];
          assert Refs(ps)[k] != Refs(ps)[0];
        } else {
          assert ps[0].item !in Refs(ps[1..]) by {
            forall i | 0 <= i < |ps[1..]| ensures Refs(ps[1..])[i] != ps[0].item {
              assert Refs(ps)[i + 1] != Refs(ps)[0];
            }
          }
        }
      }
    }
  }

  /** Placing the geometry an item already has changes nothing. */
  lemma PlaceAllOwnSnapshot(s: Scene, rs: seq<ItemRef>)
    requires Valid(s) && AllIn(rs, s) && Distinct(rs)
    ensures PlaceAll(s, Snap(s, rs)) == s
  {
    var t := PlaceAll(s, Snap(s, rs));
    PlaceAllEffect(s, Snap(s, rs));
    forall r | r in s.items ensures t.items[r] == s.items[r] {
      if r in rs {
        var k :| 0 <= k < |rs| && rs[k] == r;
        assert Snap(s, rs)[k].item == r;
      }
    }
    assert t.items == s.items;
  }

  /** A second placement of the same items wipes out the first. */
  lemma PlaceAllLast(s: Scene, ps: seq<Snapshot>, qs: seq<Snapshot>)
    requires Valid(s) && AllIn(Refs(ps), s) && Distinct(Refs(ps)) && Refs(qs) == Refs(ps)
    ensures PlaceAll(PlaceAll(s, ps), qs) == PlaceAll(s, qs)
  {
    var t := PlaceAll(s, ps);
    PlaceAllEffect(s, ps);
    PlaceAllEffect(t, qs);
    PlaceAllEffect(s, qs);
    var a := PlaceAll(t, qs);
    var b := PlaceAll(s, qs);
    forall r | r in s.items ensures a.items[r] == b.items[r] {
      if r in Refs(qs) {
        var k :| 0 <= k < |qs| && Refs(qs)[k] == r;
        var j :| 0 <= j < |ps| && Refs(ps)[j] == r;
        assert qs[k].item == r && ps[j].item == r;
      }
    }
    assert a.items == b.items;
  }

  /** Every placement in `ps` is one the move clamp leaves alone in `s`. */
  predicate Unclamped(s: Scene, ps: seq<Snapshot>) {
    forall k :: 0 <= k < |ps| && ps[k].item in s.items ==> ClampIdle(s, ps[k].item, ps[k].pos)
  }

  /** The placements as the code issues them: one clamped `setPos` and one
      `setRect` per snapshot, in order. */
  function PlaceAllAsWritten(s: Scene, ps: seq<Snapshot>): (t: Scene)
    requires Valid(s) && AllIn(Refs(ps), s)
    ensures Valid(t) && t.items.Keys == s.items.Keys
    ensures t.members == s.members && t.selected == s.selected && t.nextRef == s.nextRef
    ensures t.sceneRect == s.sceneRect
    decreases |ps|
  {
    if |ps| == 0 then s
    else
      assert ps[0].item == Refs(ps)[0];
      var s1 := PlaceAsWritten(s, ps[0].item, ps[0].pos, ps[0].size);
      assert forall i :: 0 <= i < |ps[1..]| ==> Refs(ps[1..])[i] == Refs(ps)[i + 1];
      PlaceAllAsWritten(s1, ps[1..])
  }

  /** With no item placed twice, each placed item ends as one clamped
      placement from the original scene leaves it: its snapshot's size, and
      the position the clamp makes of the snapshot's position against the
      item's size before the placement. Other items are untouched. */
  lemma {:induction false} PlaceAllAsWrittenEffect(s: Scene, ps: seq<Snapshot>)
    requires Valid(s) && AllIn(Refs(ps), s) && Distinct(Refs(ps))
    ensures forall r :: r in s.items && r !in Refs(ps) ==> PlaceAllAsWritten(s, ps).items[r] == s.items[r]
    ensures forall k :: 0 <= k < |ps| ==>
              PlaceAllAsWritten(s, ps).items[ps[k].item]
              == s.items[ps[k].item].(pos := Landing(s, ps[k].item, ps[k].pos), size := ps[k].size)
    decreases |ps|
  {
    if |ps| > 0 {
      assert ps[0].item == Refs(ps)[0];
      var s1 := PlaceAsWritten(s, ps[0].item, ps[0].pos, ps[0].size);
      assert forall i :: 0 <= i < |ps[1..]| ==> Refs(ps[1..])[i] == Refs(ps)[i + 1];
      assert Refs(ps[1..]) == Refs(ps)[1..];
      PlaceAllAsWrittenEffect(s1, ps[1..]);
      forall k | 0 <= k < |ps|
        ensures PlaceAllAsWritten(s, ps).items[ps[k].item]
                == s.items[ps[k].item].(pos := Landing(s, ps[k].item, ps[k].pos), size := ps[k].size)
      {
        if k > 0 {
          assert ps[k] == ps[1..][k - 1];
          assert Refs(ps)[k] != Refs(ps)[0];
          assert s1.items[ps[k].item] == s.items[ps[k].item];
        } else {
          assert ps[0].item !in Refs(ps[1..]) by {
            forall i | 0 <= i < |ps[1..]| ensures Refs(ps[1..])[i] != ps[0].item {
              assert Refs(ps)[i + 1] != Refs(ps)[0];
            }
          }
        }
      }
    }
  }

  /** When the clamp engages for none of them, the placements as written are
      the exact placements. */
  lemma PlaceAllAsWrittenExact(s: Scene, ps: seq<Snapshot>)
    requires Valid(s) && AllIn(Refs(ps), s) && Distinct(Refs(ps)) && Unclamped(s, ps)
    ensures PlaceAllAsWritten(s, ps) == PlaceAll(s, ps)
  {
    var a := PlaceAllAsWritten(s, ps);
    var b := PlaceAll(s, ps);
    PlaceAllAsWrittenEffect(s, ps);
    PlaceAllEffect(s, ps);
    forall r | r in s.items ensures a.items[r] == b.items[r] {
      if r in Refs(ps) {
        var k :| 0 <= k < |ps| && Refs(ps)[k] == r;
        assert ps[k].item == r;
        assert ClampIdle(s, r, ps[k].pos);
      }
    }
    assert a.items == b.items;
  }

  // ------------------------------------------------------ geometry change

  /** The corrected redo of a geometry change: the item takes exactly the
      new geometry. The code's redo clamps the position first; see
      `GeometryChangeAsWritten`. */
  function GeometryRedo(s: Scene, r: ItemRef, newPos: Point, newSize: Size): (t: Scene)
    requires Valid(s) && r in s.items
    ensures Valid(t) && t.items.Keys == s.items.Keys
    ensures t.items[r].pos == newPos && t.items[r].size == newSize
    ensures forall q :: q in s.items && q != r ==> t.items[q] == s.items[q]
  {
    Place(s, r, newPos, newSize)
  }

  /** With the corrected placement, redo then undo of a geometry change built
      from the item's geometry puts the scene back. */
  lemma GeometryChangeRoundTrip(s: Scene, r: ItemRef, newPos: Point, newSize: Size)
    requires Valid(s) && r in s.items
    ensures var t := GeometryRedo(s, r, newPos, newSize);
            Place(t, r, s.items[r].pos, s.items[r].size) == s
  {
    var t := GeometryRedo(s, r, newPos, newSize);
    assert Place(t, r, s.items[r].pos, s.items[r].size).items == s.items;
  }

  /** Undo of a geometry change as the code issues it (clamped `setPos`, then `setRect`). */
  function GeometryUndoAsWritten(s: Scene, r: ItemRef, oldPos: Point, oldSize: Size): (t: Scene)
    requires Valid(s) && r in s.items
    ensures Valid(t) && t.items.Keys == s.items.Keys && t.items[r].size == oldSize
    ensures r !in s.members || s.items[r].bounds.None? ==> t.items[r].pos == oldPos
  {
    PlaceAsWritten(s, r, oldPos, oldSize)
  }

  // --------------------------------------------------- batch geometry edit

  /** The geometry a batch edit gives one item: each given coordinate
      replaces the recorded one. */
  function Edited(sn: Snapshot, ch: GeoChanges): (e: Snapshot)
    ensures e.item == sn.item
    ensures e.pos.x == (if ch.x.Some? then ch.x.value else sn.pos.x)
    ensures e.pos.y == (if ch.y.Some? then ch.y.value else sn.pos.y)
    ensures e.size.w == (if ch.w.Some? then ch.w.value else sn.size.w)
    ensures e.size.h == (if ch.h.Some? then ch.h.value else sn.size.h)
  {
    Snapshot(sn.item, Point(ch.x.GetOr(sn.pos.x), ch.y.GetOr(sn.pos.y)), Size(ch.w.GetOr(sn.size.w), ch.h.GetOr(sn.size.h)))
  }

  function EditAll(snaps: seq<Snapshot>, ch: GeoChanges): (es: seq<Snapshot>)
    ensures |es| == |snaps| && Refs(es) == Refs(snaps)
    ensures forall i :: 0 <= i < |snaps| ==> es[i] == Edited(snaps[i], ch)
  {
    seq(|snaps|, i requires 0 <= i < |snaps| => Edited(snaps[i], ch))
  }

  /** Editing twice with the same changes is editing once. */
  lemma EditedIdempotent(sn: Snapshot, ch: GeoChanges)
    ensures Edited(Edited(sn, ch), ch) == Edited(sn, ch)
  {
  }

  // ------------------------------------------------------------ batch scale

  /** The new size for a scale mode: width, height, both, or (for any other
      mode name) neither. */
  function ScaledSize(sz: Size, factor: real, mode: string): (r: Size)
    ensures r.w == (if mode == "horizontal" || mode == "overall" then sz.w * factor else sz.w)
    ensures r.h == (if mode == "vertical" || mode == "overall" then sz.h * factor else sz.h)
  {
    if mode == "horizontal" then Size(sz.w * factor, sz.h)
    else if mode == "vertical" then Size(sz.w, sz.h * factor)
    else if mode == "overall" then Size(sz.w * factor, sz.h * factor)
    else sz
  }

  /** The position that keeps the centre of an item at `pos` with size `before`
      when it takes size `after`. */
  function CenteredPos(pos: Point, before: Size, after: Size): (p: Point)
    ensures Center(RectAt(p, after)) == Center(RectAt(pos, before))
  {
    var c := Point(pos.x + before.w / 2.0, pos.y + before.h / 2.0);
    Point(c.x - after.w / 2.0, c.y - after.h / 2.0)
  }

  /** Scale each recorded item about its centre, as its position is now. */
  function ScaleAll(s: Scene, snaps: seq<Snapshot>, factor: real, mode: string): (t: Scene)
    requires Valid(s) && AllIn(Refs(snaps), s)
    ensures Valid(t) && t.items.Keys == s.items.Keys
    ensures t.members == s.members && t.selected == s.selected && t.nextRef == s.nextRef
    decreases |snaps|
  {
    if |snaps| == 0 then s
    else
      var sn := snaps[0];
      assert sn.item == Refs(snaps)[0];
      var ns := ScaledSize(sn.size, factor, mode);
      var s1 := Place(s, sn.item, CenteredPos(s.items[sn.item].pos, sn.size, ns), ns);
      assert forall i :: 0 <= i < |snaps[1..]| ==> Refs(snaps[1..])[i] == Refs(snaps)[i + 1];
      ScaleAll(s1, snaps[1..], factor, mode)
  }

  /** The placements a scale makes, computed from the positions in `s`. */
  function ScaleTargets(s: Scene, snaps: seq<Snapshot>, factor: real, mode: string): (ps: seq<Snapshot>)
    requires AllIn(Refs(snaps), s)
    ensures Refs(ps) == Refs(snaps)
    ensures forall i :: 0 <= i < |snaps| ==>
              ps[i] == Snapshot(snaps[i].item,
                                CenteredPos(s.items[snaps[i].item].pos, snaps[i].size, ScaledSize(snaps[i].size, factor, mode)),
                                ScaledSize(snaps[i].size, factor, mode))
  {
    seq(|snaps|, i requires 0 <= i < |snaps| =>
      assert snaps[i].item == Refs(snaps)[i];
      var ns := ScaledSize(snaps[i].size, factor, mode);
      Snapshot(snaps[i].item, CenteredPos(s.items[snaps[i].item].pos, snaps[i].size, ns), ns))
  }

  /** With distinct items the in-order scale is a placement computed up front. */
  lemma {:induction false} ScaleAllIsPlaceAll(s: Scene, snaps: seq<Snapshot>, factor: real, mode: string)
    requires Valid(s) && AllIn(Refs(snaps), s) && Distinct(Refs(snaps))
    ensures ScaleAll(s, snaps, factor, mode) == PlaceAll(s, ScaleTargets(s, snaps, factor, mode))
    decreases |snaps|
  {
    if |snaps| > 0 {
      var sn := snaps[0];
      assert sn.item == Refs(snaps)[0];
      var ns := ScaledSize(sn.size, factor, mode);
      var s1 := Place(s, sn.item, CenteredPos(s.items[sn.item].pos, sn.size, ns), ns);
      var rest := snaps[1..];
      assert forall i :: 0 <= i < |rest| ==> Refs(rest)[i] == Refs(snaps)[i + 1];
      assert Refs(rest) == Refs(snaps)[1..];
      ScaleAllIsPlaceAll(s1, rest, factor, mode);
      var ps := ScaleTargets(s, snaps, factor, mode);
      forall i | 0 <= i < |rest| ensures s1.items[rest[i].item] == s.items[rest[i].item] {
        assert Refs(snaps)[i + 1] != Refs(snaps)[0];
      }
      assert ScaleTargets(s1, rest, factor, mode) == ps[1..];
    }
  }

  /** A scale of items recorded as they are keeps every centre where it was,
      gives each the scaled size, and leaves other items alone. */
  lemma ScaleKeepsCenters(s: Scene, rs: seq<ItemRef>, factor: real, mode: string)
    requires Valid(s) && AllIn(rs, s) && Distinct(rs)
    ensures var t := ScaleAll(s, Snap(s, rs), factor, mode);
            && (forall k :: 0 <= k < |rs| ==>
                  && Center(RectAt(t.items[rs[k]].pos, t.items[rs[k]].size))
                     == Center(RectAt(s.items[rs[k]].pos, s.items[rs[k]].size))
                  && t.items[rs[k]].size == ScaledSize(s.items[rs[k]].size, factor, mode))
            && (forall r :: r in s.items && r !in rs ==> t.items[r] == s.items[r])
  {
    var snaps := Snap(s, rs);
    ScaleAllIsPlaceAll(s, snaps, factor, mode);
    var ps := ScaleTargets(s, snaps, factor, mode);
    PlaceAllEffect(s, ps);
    forall k | 0 <= k < |rs|
      ensures ps[k].item == rs[k]
    {
      assert snaps[k].item == rs[k];
    }
  }

  /** The scale as the code runs it: each item's centre is read from its
      position now, and the new top-left then goes through the clamped
      `setPos` while the item still has its unscaled size. */
  function ScaleAllAsWritten(s: Scene, snaps: seq<Snapshot>, factor: real, mode: string): (t: Scene)
    requires Valid(s) && AllIn(Refs(snaps), s)
    ensures Valid(t) && t.items.Keys == s.items.Keys
    ensures t.members == s.members && t.selected == s.selected && t.nextRef == s.nextRef
    decreases |snaps|
  {
    if |snaps| == 0 then s
    else
      var sn := snaps[0];
      assert sn.item == Refs(snaps)[0];
      var ns := ScaledSize(sn.size, factor, mode);
      var s1 := PlaceAsWritten(s, sn.item, CenteredPos(s.items[sn.item].pos, sn.size, ns), ns);
      assert forall i :: 0 <= i < |snaps[1..]| ==> Refs(snaps[1..])[i] == Refs(snaps)[i + 1];
      ScaleAllAsWritten(s1, snaps[1..], factor, mode)
  }

  /** With distinct items the scale as written is the clamped placement of
      targets computed up front. */
  lemma {:induction false} ScaleAllAsWrittenIsPlaceAll(s: Scene, snaps: seq<Snapshot>, factor: real, mode: string)
    requires Valid(s) && AllIn(Refs(snaps), s) && Distinct(Refs(snaps))
    ensures ScaleAllAsWritten(s, snaps, factor, mode) == PlaceAllAsWritten(s, ScaleTargets(s, snaps, factor, mode))
    decreases |snaps|
  {
    if |snaps| > 0 {
      var sn := snaps[0];
      assert sn.item == Refs(snaps)[0];
      var ns := ScaledSize(sn.size, factor, mode);
      var s1 := PlaceAsWritten(s, sn.item, CenteredPos(s.items[sn.item].pos, sn.size, ns), ns);
      var rest := snaps[1..];
      assert forall i :: 0 <= i < |rest| ==> Refs(rest)[i] == Refs(snaps)[i + 1];
      assert Refs(rest) == Refs(snaps)[1..];
      ScaleAllAsWrittenIsPlaceAll(s1, rest, factor, mode);
      var ps := ScaleTargets(s, snaps, factor, mode);
      forall i | 0 <= i < |rest| ensures s1.items[rest[i].item] == s.items[rest[i].item] {
        assert Refs(snaps)[i + 1] != Refs(snaps)[0];
      }
      assert ScaleTargets(s1, rest, factor, mode) == ps[1..];
    }
  }

  // ------------------------------------------------------- command laws

  /** With the corrected placement, a batch edit built from the items'
      current geometry gives each item the edited coordinates, leaves the
      other items alone, and restoring the snapshots puts the page back. */
  lemma BatchGeometryRoundTrip(s: Scene, rs: seq<ItemRef>, ch: GeoChanges)
    requires Valid(s) && AllIn(rs, s) && Distinct(rs)
    ensures var snaps := Snap(s, rs);
            var t := PlaceAll(s, EditAll(snaps, ch));
            && (forall k :: 0 <= k < |rs| ==>
                  t.items[rs[k]] == s.items[rs[k]].(pos := Edited(snaps[k], ch).pos, size := Edited(snaps[k], ch).size))
            && (forall q :: q in s.items && q !in rs ==> t.items[q] == s.items[q])
            && PlaceAll(t, snaps) == s
  {
    var snaps := Snap(s, rs);
    var es := EditAll(snaps, ch);
    PlaceAllEffect(s, es);
    forall k | 0 <= k < |rs| ensures es[k].item == rs[k] {
      assert Refs(es)[k] == rs[k];
    }
    PlaceAllLast(s, es, snaps);
    PlaceAllOwnSnapshot(s, rs);
  }

  /** With the corrected placement a batch edit reads only its snapshots, so
      running it twice is running it once. */
  lemma BatchGeometryRedoIdempotent(s: Scene, snaps: seq<Snapshot>, ch: GeoChanges)
    requires Valid(s) && AllIn(Refs(snaps), s) && Distinct(Refs(snaps))
    ensures PlaceAll(PlaceAll(s, EditAll(snaps, ch)), EditAll(snaps, ch)) == PlaceAll(s, EditAll(snaps, ch))
  {
    PlaceAllLast(s, EditAll(snaps, ch), EditAll(snaps, ch));
  }

  /** With the corrected placement, restoring the snapshots undoes a batch
      scale built from the items' current geometry, and scaling again repeats
      the first scale. */
  lemma BatchScaleRoundTrip(s: Scene, rs: seq<ItemRef>, factor: real, mode: string)
    requires Valid(s) && AllIn(rs, s) && Distinct(rs)
    ensures var snaps := Snap(s, rs);
            var t := ScaleAll(s, snaps, factor, mode);
            && PlaceAll(t, snaps) == s
            && ScaleAll(PlaceAll(t, snaps), snaps, factor, mode) == t
  {
    var snaps := Snap(s, rs);
    ScaleAllIsPlaceAll(s, snaps, factor, mode);
    PlaceAllLast(s, ScaleTargets(s, snaps, factor, mode), snaps);
    PlaceAllOwnSnapshot(s, rs);
  }
}
