/**
  The item-set computations of the page commands: removing and restoring
  items for a delete, and creating, naming and adding items for a batch add
  and a paste.
*/
module ItemSets {
  import opened Options
  import opened Geometry
  import opened HotspotData
  import opened Scene
  import opened Ids
  import opened Placement

  /** One hotspot to add: its kind name, position, size and data. */
  datatype Descriptor = Descriptor(kind: string, pos: Point, size: Size, data: Data)

  /** One clipboard entry: kind name, local size and data. */
  datatype ClipEntry = ClipEntry(kind: string, size: Size, data: Data)

  // ------------------------------------------------------------- deletion

  /** Remove each target that is in the scene. */
  function RemoveAll(s: Scene, rs: seq<ItemRef>): (t: Scene)
    requires Valid(s)
    ensures Valid(t) && t.items == s.items && t.nextRef == s.nextRef && t.sceneRect == s.sceneRect
    ensures t.members == s.members - set x | x in rs
    ensures t.selected == s.selected - set x | x in rs
    decreases |rs|
  {
    if |rs| == 0 then s
    else
      var s1 := if rs[0] in s.members then RemoveItem(s, rs[0]) else s;
      var t := RemoveAll(s1, rs[1..]);
      assert (set x | x in rs) == {rs[0]} + set x | x in rs[1..];
      t
  }

  /** Add each target back and select it. */
  function RestoreAll(s: Scene, rs: seq<ItemRef>): (t: Scene)
    requires Valid(s) && AllIn(rs, s)
    ensures Valid(t) && t.items == s.items && t.nextRef == s.nextRef && t.sceneRect == s.sceneRect
    ensures t.members == s.members + set x | x in rs
    ensures t.selected == s.selected + set x | x in rs
    decreases |rs|
  {
    if |rs| == 0 then s
    else
      var s1 := SetSelected(AddItem(s, rs[0]), rs[0], true);
      var t := RestoreAll(s1, rs[1..]);
      assert (set x | x in rs) == {rs[0]} + set x | x in rs[1..];
      t
  }

  /** Deleting items of the scene and undoing it shows the same items again,
      with the deleted ones selected. */
  lemma DeleteRoundTrip(s: Scene, rs: seq<ItemRef>)
    requires Valid(s) && forall i :: 0 <= i < |rs| ==> rs[i] in s.members
    ensures var t := RestoreAll(RemoveAll(s, rs), rs);
            && Visible(t) == Visible(s)
            && t.selected == s.selected + set x | x in rs
  {
  }

  // ------------------------------------------------------------ creation

  /** BatchAdd's shape rule: `ellipse` makes an ellipse, anything else a rectangle. */
  function AddShape(kind: string): Shape {
    if kind == "ellipse" then Ellipse else Rectangle
  }

  /** Paste's shape rule: `rectangle` makes a rectangle, anything else an ellipse. */
  function PasteShape(kind: string): Shape {
    if kind == "rectangle" then Rectangle else Ellipse
  }

  /** The kind name the copy action records for a shape. */
  function KindName(sh: Shape): string {
    match sh
    case Rectangle => "rectangle"
    case Ellipse => "ellipse"
  }

  /** A copied shape is pasted, or batch-added, as the same shape. */
  lemma ShapeNamesRoundTrip(sh: Shape)
    ensures PasteShape(KindName(sh)) == sh && AddShape(KindName(sh)) == sh
  {
  }

  /** The identifier the `i`-th generation of a run starting at `counter` hands out. */
  function IdAt(ctx: IdContext, counter: nat, i: nat): (id: Option<string>)
    ensures id.Some? <==> ctx.CanName()
  {
    if ctx.CanName() then Some(FormatId(ctx.projectId, ctx.page.value, counter + i)) else None
  }

  /** The item a descriptor becomes. */
  function DescribedItem(d: Descriptor, bounds: Rect, id: Option<string>): Hotspot {
    Hotspot(AddShape(d.kind), d.pos, d.size, d.data.(id := id), Some(bounds))
  }

  /** Create, name and add one item per descriptor. The new items take the
      next free references, in order. */
  function AddDescribed(s: Scene, counter: nat, ctx: IdContext, ds: seq<Descriptor>): (r: (Scene, nat, seq<ItemRef>))
    requires Valid(s)
    ensures Valid(r.0) && |r.2| == |ds| && r.1 >= counter
    ensures r.0.nextRef == s.nextRef + |ds| && r.0.sceneRect == s.sceneRect
    ensures forall i :: 0 <= i < |ds| ==> r.2[i] == s.nextRef + i && r.2[i] in r.0.items
    ensures s.items.Keys <= r.0.items.Keys
    decreases |ds|
  {
    if |ds| == 0 then (s, counter, [])
    else
      var (id, next) := GenerateId(ctx, counter);
      var (s1, ref) := Create(s, DescribedItem(ds[0], s.sceneRect, id));
      var (s3, c3, rest) := AddDescribed(AddItem(s1, ref), next, ctx, ds[1..]);
      (s3, c3, [ref] + rest)
  }

  /** Adding `r` and then the rest is adding `[r] + rest`. */
  lemma ConsMembers(a: set<ItemRef>, r: ItemRef, rest: seq<ItemRef>, b: set<ItemRef>)
    requires b == (a + {r}) + set x | x in rest
    ensures b == a + set x | x in [r] + rest
  {
    SetOfCons(r, rest);
  }

  lemma SetOfCons(r: ItemRef, rs: seq<ItemRef>)
    ensures (set x | x in [r] + rs) == {r} + set x | x in rs
  {
    assert forall x :: x in [r] + rs <==> x == r || x in rs;
  }

  /** Batch adding keeps every existing item and the selection, and makes
      each new item a member. */
  lemma AddDescribedKeeps(s: Scene, counter: nat, ctx: IdContext, ds: seq<Descriptor>)
    requires Valid(s)
    ensures var r := AddDescribed(s, counter, ctx, ds);
            && (forall q :: q in s.items ==> r.0.items[q] == s.items[q])
            && r.0.members == s.members + (set x | x in r.2)
            && r.0.selected == s.selected
  {
    AddDescribedKeepsItems(s, counter, ctx, ds);
    AddDescribedMembers(s, counter, ctx, ds);
  }

  lemma {:induction false} AddDescribedKeepsItems(s: Scene, counter: nat, ctx: IdContext, ds: seq<Descriptor>)
    requires Valid(s)
    ensures var r := AddDescribed(s, counter, ctx, ds);
            && (forall q :: q in s.items ==> r.0.items[q] == s.items[q])
            && r.0.selected == s.selected
    decreases |ds|
  {
    if |ds| > 0 {
      var (id, next) := GenerateId(ctx, counter);
      var (s1, ref) := Create(s, DescribedItem(ds[0], s.sceneRect, id));
      AddDescribedKeepsItems(AddItem(s1, ref), next, ctx, ds[1..]);
    }
  }

  lemma {:induction false} AddDescribedMembers(s: Scene, counter: nat, ctx: IdContext, ds: seq<Descriptor>)
    requires Valid(s)
    ensures var r := AddDescribed(s, counter, ctx, ds);
            r.0.members == s.members + (set x | x in r.2)
    decreases |ds|
  {
    if |ds| > 0 {
      var (id, next) := GenerateId(ctx, counter);
      var (s1, ref) := Create(s, DescribedItem(ds[0], s.sceneRect, id));
      var s2 := AddItem(s1, ref);
      AddDescribedMembers(s2, next, ctx, ds[1..]);
      var r2 := AddDescribed(s2, next, ctx, ds[1..]);
      assert AddDescribed(s, counter, ctx, ds).2 == [ref] + r2.2;
      SetOfCons(ref, r2.2);
    }
  }

  /** The `i`-th new item is built from the `i`-th descriptor and carries
      the `i`-th identifier of the run. */
  lemma {:induction false} AddDescribedItemAt(s: Scene, counter: nat, ctx: IdContext, ds: seq<Descriptor>, i: nat)
    requires Valid(s) && i < |ds|
    ensures var r := AddDescribed(s, counter, ctx, ds);
            r.0.items[r.2[i]] == DescribedItem(ds[i], s.sceneRect, IdAt(ctx, counter, i))
    decreases |ds|
  {
    var (id, next) := GenerateId(ctx, counter);
    var (s1, ref) := Create(s, DescribedItem(ds[0], s.sceneRect, id));
    var s2 := AddItem(s1, ref);
    var r2 := AddDescribed(s2, next, ctx, ds[1..]);
    var r := AddDescribed(s, counter, ctx, ds);
    assert r == (r2.0, r2.1, [ref] + r2.2);
    if i == 0 {
      AddDescribedKeepsItems(s2, next, ctx, ds[1..]);
      assert r.0.items[ref] == s2.items[ref];
    } else {
      AddDescribedItemAt(s2, next, ctx, ds[1..], i - 1);
      assert r.2[i] == r2.2[i - 1];
      assert ds[i] == ds[1..][i - 1];
      assert IdAt(ctx, next, i - 1) == IdAt(ctx, counter, i);
    }
  }

  lemma AddDescribedItems(s: Scene, counter: nat, ctx: IdContext, ds: seq<Descriptor>)
    requires Valid(s)
    ensures var r := AddDescribed(s, counter, ctx, ds);
            forall i :: 0 <= i < |ds| ==> r.0.items[r.2[i]] == DescribedItem(ds[i], s.sceneRect, IdAt(ctx, counter, i))
  {
    forall i | 0 <= i < |ds|
      ensures var r := AddDescribed(s, counter, ctx, ds);
              r.0.items[r.2[i]] == DescribedItem(ds[i], s.sceneRect, IdAt(ctx, counter, i))
    {
      AddDescribedItemAt(s, counter, ctx, ds, i);
    }
  }

  /** One counter value is consumed per item exactly when identifiers can be made. */
  lemma {:induction false} AddDescribedCounter(s: Scene, counter: nat, ctx: IdContext, ds: seq<Descriptor>)
    requires Valid(s)
    ensures AddDescribed(s, counter, ctx, ds).1 == counter + (if ctx.CanName() then |ds| else 0)
    decreases |ds|
  {
    if |ds| > 0 {
      var (id, next) := GenerateId(ctx, counter);
      var (s1, ref) := Create(s, DescribedItem(ds[0], s.sceneRect, id));
      AddDescribedCounter(AddItem(s1, ref), next, ctx, ds[1..]);
    }
  }

  /** The item a clipboard entry becomes, pasted `i`-th at `at`. */
  function PastedItem(e: ClipEntry, at: Point, i: nat, bounds: Rect, ctx: IdContext, id: Option<string>): Hotspot {
    var offset := 10.0 * (i as real);
    Hotspot(PasteShape(e.kind), Point(at.x + offset, at.y + offset), e.size,
            if ctx.page.Some? then e.data.(id := id) else e.data, Some(bounds))
  }

  /** The identifier generation of one paste step: only with a session. */
  function PasteId(ctx: IdContext, counter: nat): (Option<string>, nat) {
    if ctx.page.Some? then GenerateId(ctx, counter) else (None, counter)
  }

  /** A paste step names its item with the next identifier of the run and
      moves the counter on by one, exactly when identifiers can be made. */
  lemma PasteIdIsNext(ctx: IdContext, counter: nat)
    ensures PasteId(ctx, counter).0 == IdAt(ctx, counter, 0)
    ensures PasteId(ctx, counter).1 == counter + (if ctx.CanName() then 1 else 0)
  {
  }

  /** The scene after the first paste step, and the reference it made. */
  function PasteFirst(s: Scene, counter: nat, ctx: IdContext, es: seq<ClipEntry>, at: Point, first: nat)
    : (r: (Scene, ItemRef))
    requires Valid(s) && |es| > 0
    ensures Valid(r.0) && r.1 !in s.items && r.0.sceneRect == s.sceneRect
    ensures r.0.items == s.items[r.1 := PastedItem(es[0], at, first, s.sceneRect, ctx, PasteId(ctx, counter).0)]
    ensures r.0.members == s.members + {r.1} && r.0.selected == s.selected + {r.1}
  {
    var (id, next) := PasteId(ctx, counter);
    var (s1, ref) := Create(s, PastedItem(es[0], at, first, s.sceneRect, ctx, id));
    (SetSelected(AddItem(s1, ref), ref, true), ref)
  }

  /** Create, name, add and select one item per clipboard entry. */
  function PasteEntries(s: Scene, counter: nat, ctx: IdContext, es: seq<ClipEntry>, at: Point, first: nat)
    : (r: (Scene, nat, seq<ItemRef>))
    requires Valid(s)
    ensures Valid(r.0) && |r.2| == |es| && r.1 >= counter
    ensures r.0.nextRef == s.nextRef + |es| && r.0.sceneRect == s.sceneRect
    ensures forall i :: 0 <= i < |es| ==> r.2[i] == s.nextRef + i && r.2[i] in r.0.items
    ensures s.items.Keys <= r.0.items.Keys
    decreases |es|
  {
    if |es| == 0 then (s, counter, [])
    else
      var (id, next) := PasteId(ctx, counter);
      var (s1, ref) := Create(s, PastedItem(es[0], at, first, s.sceneRect, ctx, id));
      var (s3, c3, rest) := PasteEntries(SetSelected(AddItem(s1, ref), ref, true), next, ctx, es[1..], at, first + 1);
      (s3, c3, [ref] + rest)
  }

  /** Pasting keeps every existing item and adds each new item to the scene
      and to the selection. */
  lemma PasteEntriesUnfold(s: Scene, counter: nat, ctx: IdContext, es: seq<ClipEntry>, at: Point, first: nat)
    requires Valid(s) && |es| > 0
    ensures var (s2, ref) := PasteFirst(s, counter, ctx, es, at, first);
            var r2 := PasteEntries(s2, PasteId(ctx, counter).1, ctx, es[1..], at, first + 1);
            PasteEntries(s, counter, ctx, es, at, first) == (r2.0, r2.1, [ref] + r2.2)
  {
  }

  lemma PasteEntriesKeeps(s: Scene, counter: nat, ctx: IdContext, es: seq<ClipEntry>, at: Point, first: nat)
    requires Valid(s)
    ensures var r := PasteEntries(s, counter, ctx, es, at, first);
            && (forall q :: q in s.items ==> r.0.items[q] == s.items[q])
            && r.0.members == s.members + (set x | x in r.2)
            && r.0.selected == s.selected + (set x | x in r.2)
  {
    PasteEntriesKeepsItems(s, counter, ctx, es, at, first);
    PasteEntriesMembers(s, counter, ctx, es, at, first);
  }

  lemma {:induction false} PasteEntriesKeepsItems(s: Scene, counter: nat, ctx: IdContext, es: seq<ClipEntry>, at: Point, first: nat)
    requires Valid(s)
    ensures var r := PasteEntries(s, counter, ctx, es, at, first);
            forall q :: q in s.items ==> r.0.items[q] == s.items[q]
    decreases |es|
  {
    if |es| > 0 {
      var (s2, ref) := PasteFirst(s, counter, ctx, es, at, first);
      PasteEntriesUnfold(s, counter, ctx, es, at, first);
      PasteEntriesKeepsItems(s2, PasteId(ctx, counter).1, ctx, es[1..], at, first + 1);
    }
  }

  lemma {:induction false} PasteEntriesMembers(s: Scene, counter: nat, ctx: IdContext, es: seq<ClipEntry>, at: Point, first: nat)
    requires Valid(s)
    ensures var r := PasteEntries(s, counter, ctx, es, at, first);
            && r.0.members == s.members + (set x | x in r.2)
            && r.0.selected == s.selected + (set x | x in r.2)
    decreases |es|
  {
    if |es| > 0 {
      var (s2, ref) := PasteFirst(s, counter, ctx, es, at, first);
      var next := PasteId(ctx, counter).1;
      PasteEntriesUnfold(s, counter, ctx, es, at, first);
      PasteEntriesMembers(s2, next, ctx, es[1..], at, first + 1);
      var r2 := PasteEntries(s2, next, ctx, es[1..], at, first + 1);
      ConsMembers(s.members, ref, r2.2, r2.0.members);
      ConsMembers(s.selected, ref, r2.2, r2.0.selected);
    }
  }

  /** The `i`-th pasted item comes from the `i`-th entry, sits `10 (first + i)`
      from `at` on both axes, and with a session carries the `i`-th identifier. */
  lemma {:induction false} PasteEntriesItemAt(s: Scene, counter: nat, ctx: IdContext, es: seq<ClipEntry>, at: Point, first: nat, i: nat)
    requires Valid(s) && i < |es|
    ensures var r := PasteEntries(s, counter, ctx, es, at, first);
            r.0.items[r.2[i]] == PastedItem(es[i], at, first + i, s.sceneRect, ctx, IdAt(ctx, counter, i))
    decreases |es|
  {
    if i == 0 {
      PasteEntriesHead(s, counter, ctx, es, at, first);
    } else {
      var s2 := PasteFirst(s, counter, ctx, es, at, first).0;
      PasteEntriesItemAt(s2, PasteId(ctx, counter).1, ctx, es[1..], at, first + 1, i - 1);
      PasteEntriesShift(s, counter, ctx, es, at, first, i);
      assert es[i] == es[1..][i - 1];
    }
  }

  /** The first pasted item comes from the first entry. */
  lemma PasteEntriesHead(s: Scene, counter: nat, ctx: IdContext, es: seq<ClipEntry>, at: Point, first: nat)
    requires Valid(s) && |es| > 0
    ensures var r := PasteEntries(s, counter, ctx, es, at, first);
            r.0.items[r.2[0]] == PastedItem(es[0], at, first, s.sceneRect, ctx, IdAt(ctx, counter, 0))
  {
    var (s2, ref) := PasteFirst(s, counter, ctx, es, at, first);
    PasteEntriesUnfold(s, counter, ctx, es, at, first);
    PasteIdIsNext(ctx, counter);
    PasteEntriesKeepsItems(s2, PasteId(ctx, counter).1, ctx, es[1..], at, first + 1);
  }

  /** Past the first step, the `i`-th pasted item is the rest's `(i - 1)`-th. */
  lemma PasteEntriesShift(s: Scene, counter: nat, ctx: IdContext, es: seq<ClipEntry>, at: Point, first: nat, i: nat)
    requires Valid(s) && 0 < i < |es|
    ensures var s2 := PasteFirst(s, counter, ctx, es, at, first).0;
            var rest := PasteEntries(s2, PasteId(ctx, counter).1, ctx, es[1..], at, first + 1);
            var r := PasteEntries(s, counter, ctx, es, at, first);
            && r.0 == rest.0 && r.2[i] == rest.2[i - 1] && s2.sceneRect == s.sceneRect
            && IdAt(ctx, PasteId(ctx, counter).1, i - 1) == IdAt(ctx, counter, i)
  {
    PasteEntriesUnfold(s, counter, ctx, es, at, first);
    PasteIdIsNext(ctx, counter);
  }

  lemma PasteEntriesItems(s: Scene, counter: nat, ctx: IdContext, es: seq<ClipEntry>, at: Point, first: nat)
    requires Valid(s)
    ensures var r := PasteEntries(s, counter, ctx, es, at, first);
            forall i :: 0 <= i < |es| ==>
              r.0.items[r.2[i]] == PastedItem(es[i], at, first + i, s.sceneRect, ctx, IdAt(ctx, counter, i))
  {
    forall i | 0 <= i < |es|
      ensures var r := PasteEntries(s, counter, ctx, es, at, first);
              r.0.items[r.2[i]] == PastedItem(es[i], at, first + i, s.sceneRect, ctx, IdAt(ctx, counter, i))
    {
      PasteEntriesItemAt(s, counter, ctx, es, at, first, i);
    }
  }

  lemma {:induction false} PasteEntriesCounter(s: Scene, counter: nat, ctx: IdContext, es: seq<ClipEntry>, at: Point, first: nat)
    requires Valid(s)
    ensures PasteEntries(s, counter, ctx, es, at, first).1 == counter + (if ctx.CanName() then |es| else 0)
    decreases |es|
  {
    if |es| > 0 {
      var (id, next) := PasteId(ctx, counter);
      var (s1, ref) := Create(s, PastedItem(es[0], at, first, s.sceneRect, ctx, id));
      PasteEntriesCounter(SetSelected(AddItem(s1, ref), ref, true), next, ctx, es[1..], at, first + 1);
    }
  }
}
