/**
  The main window's checks before it pushes an editing command onto the
  active page's stack: the single-item geometry fields, the batch geometry
  fields, the batch scale dialog, and the pop-up size fields kept at a fixed
  aspect ratio. The fields' texts, the current selection (in the order the
  scene lists it) and the dialog's answer are inputs; message boxes are the
  `InputError` and `Notice` outcomes.
*/
module Controller {
  import opened Options
  import opened Text
  import opened Geometry
  import opened Scene
  import opened Ids
  import opened Placement
  import opened ItemSets
  import opened Commands

  /** The X, Y, width and height text boxes. */
  datatype Fields = Fields(x: string, y: string, w: string, h: string)

  datatype Outcome =
    | NoCommand           // nothing happens
    | InputError          // a warning, and the fields are refreshed
    | Notice              // an information box
    | PushCommand(c: Command)

  /** The selection is one the scene holds: listed once each, all present. */
  predicate SelectionOf(page: Option<Scene>, selection: seq<ItemRef>) {
    page.Some? ==> Valid(page.value) && AllIn(selection, page.value) && Distinct(selection)
  }

  // ------------------------------------------------------ single item

  /** The four fields parsed, when all parse and the size is positive. */
  function ParseGeometry(f: Fields): (r: Option<(Point, Size)>)
    ensures r.Some? <==>
              && ParseFloat(f.x).Some? && ParseFloat(f.y).Some? && ParseFloat(f.w).Some? && ParseFloat(f.h).Some?
              && ParseFloat(f.w).value > 0.0 && ParseFloat(f.h).value > 0.0
    ensures r.Some? ==> r.value == (Point(ParseFloat(f.x).value, ParseFloat(f.y).value),
                                    Size(ParseFloat(f.w).value, ParseFloat(f.h).value))
  {
    match (ParseFloat(f.x), ParseFloat(f.y), ParseFloat(f.w), ParseFloat(f.h))
    case (Some(x), Some(y), Some(w), Some(h)) =>
      if w > 0.0 && h > 0.0 then Some((Point(x, y), Size(w, h))) else None
    case _ => None
  }

  /**
    `commit_geometry_change`: with exactly one item selected on the active
    page and valid fields, a geometry change from the item's geometry to the
    typed one, unless they are equal. No bounds are applied.
  */
  function CommitGeometry(page: Option<Scene>, selection: seq<ItemRef>, f: Fields): (r: Outcome)
    requires SelectionOf(page, selection)
    ensures !r.Notice?
    ensures page.None? || |selection| != 1 ==> r == NoCommand
    ensures r.InputError? <==> page.Some? && |selection| == 1 && ParseGeometry(f).None?
    ensures r.PushCommand? <==>
              && page.Some? && |selection| == 1 && ParseGeometry(f).Some?
              && var h := page.value.items[selection[0]];
                 ParseGeometry(f).value != (h.pos, h.size)
    ensures r.PushCommand? ==>
              var h := page.value.items[selection[0]];
              r.c == GeometryChange(selection[0], h.pos, h.size, ParseGeometry(f).value.0, ParseGeometry(f).value.1)
  {
    if page.None? || |selection| != 1 then NoCommand
    else
      var item := selection[0];
      var h := page.value.items[item];
      match ParseGeometry(f)
      case None => InputError
      case Some((pos, size)) =>
        if h.pos == pos && h.size == size then NoCommand
        else PushCommand(GeometryChange(item, h.pos, h.size, pos, size))
  }

  /**
    A committed geometry change, as the code runs it, gives the item the
    typed size and keeps its data and the other items. The item lands at the
    typed position exactly when the move clamp, against the item's size
    before the edit, leaves it there. When that clamp and the undo's clamp
    are both idle, the undo puts the page back.
  */
  lemma CommitGeometryApplies(st: PageState, selection: seq<ItemRef>, f: Fields, ctx: IdContext)
    requires SelectionOf(Some(st.scene), selection)
    requires CommitGeometry(Some(st.scene), selection, f).PushCommand?
    ensures var c := CommitGeometry(Some(st.scene), selection, f).c;
            var r := Redo(c, st, ctx);
            var item := selection[0];
            var h := st.scene.items[item];
            var (pos, size) := ParseGeometry(f).value;
            && Refers(c, st.scene)
            && r.1.scene.items[item] == h.(pos := Landing(st.scene, item, pos), size := size)
            && (r.1.scene.items[item].pos == pos <==> ClampIdle(st.scene, item, pos))
            && r.1.scene.items[item].data == h.data
            && (forall q :: q in st.scene.items && q != item ==> r.1.scene.items[q] == st.scene.items[q])
            && (ClampIdle(st.scene, item, pos) && ClampIdle(r.1.scene, item, h.pos) ==> Undo(r.0, r.1).1 == st)
  {
    var item := selection[0];
    assert item in st.scene.items;
    var h := st.scene.items[item];
    var (pos, size) := ParseGeometry(f).value;
    assert CommitGeometry(Some(st.scene), selection, f).c == GeometryChange(item, h.pos, h.size, pos, size);
    GeometryChangeAsWritten(st, item, pos, size, ctx);
  }

  // ------------------------------------------------------ several items

  /** One optional field: empty means "leave as is"; otherwise it must parse
      and, for a size field, be positive. `None` is the error. */
  function ParseOptional(text: string, positive: bool): (r: Option<Option<real>>)
    ensures text == "" ==> r == Some(None)
    ensures text != "" ==>
              (r.Some? <==> ParseFloat(text).Some? && (positive ==> ParseFloat(text).value > 0.0))
    ensures text != "" && r.Some? ==> r.value == Some(ParseFloat(text).value)
  {
    if text == "" then Some(None)
    else match ParseFloat(text)
      case None => None
      case Some(v) => if positive && v <= 0.0 then None else Some(Some(v))
  }

  /** The sparse change set the batch fields give, or `None` on an error. */
  function BatchChanges(f: Fields): (r: Option<GeoChanges>)
    ensures r.Some? <==>
              ParseOptional(f.x, false).Some? && ParseOptional(f.y, false).Some?
              && ParseOptional(f.w, true).Some? && ParseOptional(f.h, true).Some?
    ensures r.Some? ==> (r.value.x.Some? <==> f.x != "") && (r.value.y.Some? <==> f.y != "")
                        && (r.value.w.Some? <==> f.w != "") && (r.value.h.Some? <==> f.h != "")
    ensures r.Some? && r.value.w.Some? ==> r.value.w.value > 0.0
    ensures r.Some? && r.value.h.Some? ==> r.value.h.value > 0.0
  {
    match (ParseOptional(f.x, false), ParseOptional(f.y, false), ParseOptional(f.w, true), ParseOptional(f.h, true))
    case (Some(x), Some(y), Some(w), Some(h)) => Some(GeoChanges(x, y, w, h))
    case _ => None
  }

  function IsEmpty(ch: GeoChanges): bool {
    ch.x.None? && ch.y.None? && ch.w.None? && ch.h.None?
  }

  /**
    `commit_batch_geometry_change`: with two or more items selected, the
    non-empty fields become one batch command over the selection; an error
    in any field, or no field filled in, pushes nothing.
  */
  function CommitBatchGeometry(page: Option<Scene>, selection: seq<ItemRef>, f: Fields): (r: Outcome)
    requires SelectionOf(page, selection)
    ensures !r.Notice?
    ensures page.None? || |selection| <= 1 ==> r == NoCommand
    ensures r.InputError? <==> page.Some? && |selection| > 1 && BatchChanges(f).None?
    ensures r.PushCommand? <==> page.Some? && |selection| > 1 && BatchChanges(f).Some?
                                && (f.x != "" || f.y != "" || f.w != "" || f.h != "")
    ensures r.PushCommand? ==> r.c == BatchGeometry(Snap(page.value, selection), BatchChanges(f).value)
  {
    if page.None? || |selection| <= 1 then NoCommand
    else match BatchChanges(f)
      case None => InputError
      case Some(ch) => if IsEmpty(ch) then NoCommand else PushCommand(BatchGeometry(Snap(page.value, selection), ch))
  }

  /**
    After a committed batch edit, as the code runs it, every selected item
    takes each filled-in size field and keeps its own value where the field
    was left empty, and keeps its data. Its position is the filled-in one,
    completed from its own, exactly when the move clamp against its size
    before the edit leaves it there. When no clamp of the redo or of the
    undo engages, the undo puts the page back.
  */
  lemma CommitBatchApplies(st: PageState, selection: seq<ItemRef>, f: Fields, ctx: IdContext, k: nat)
    requires SelectionOf(Some(st.scene), selection) && k < |selection|
    requires CommitBatchGeometry(Some(st.scene), selection, f).PushCommand?
    ensures var c := CommitBatchGeometry(Some(st.scene), selection, f).c;
            var r := Redo(c, st, ctx);
            var before := st.scene.items[selection[k]];
            var after := r.1.scene.items[selection[k]];
            var want := Point(if f.x == "" then before.pos.x else ParseFloat(f.x).value,
                              if f.y == "" then before.pos.y else ParseFloat(f.y).value);
            && after.size.w == (if f.w == "" then before.size.w else ParseFloat(f.w).value)
            && after.size.h == (if f.h == "" then before.size.h else ParseFloat(f.h).value)
            && after.pos == Landing(st.scene, selection[k], want)
            && (after.pos == want <==> ClampIdle(st.scene, selection[k], want))
            && after.data == before.data
            && (Unclamped(st.scene, EditAll(c.snaps, c.changes)) && Unclamped(r.1.scene, c.snaps)
                ==> Undo(r.0, r.1).1 == st)
  {
    var ch := BatchChanges(f).value;
    BatchGeometryAsWritten(st, selection, ch, ctx);
  }

  // ------------------------------------------------------------- scaling

  /**
    `open_batch_scale_dialog`: with two or more items selected, the dialog's
    factor and mode become a batch scale, unless the dialog was cancelled
    or the factor left at 1. With fewer items a notice is shown.
  */
  function OpenBatchScale(page: Option<Scene>, selection: seq<ItemRef>, answer: Option<(real, string)>): (r: Outcome)
    requires SelectionOf(page, selection)
    ensures !r.InputError?
    ensures r.Notice? <==> page.Some? && |selection| <= 1
    ensures r.PushCommand? <==> page.Some? && |selection| > 1 && answer.Some? && answer.value.0 != 1.0
    ensures r.PushCommand? ==> r.c == BatchScale(Snap(page.value, selection), answer.value.0, answer.value.1)
  {
    if page.None? then NoCommand
    else if |selection| <= 1 then Notice
    else match answer
      case None => NoCommand
      case Some((factor, mode)) =>
        if factor != 1.0 then PushCommand(BatchScale(Snap(page.value, selection), factor, mode)) else NoCommand
  }

  /**
    A pushed scale, as the code runs it, gives every selected item its size
    scaled by the mode and keeps its data. The item keeps its centre exactly
    when the move clamp, against its unscaled size, leaves the centred
    position alone. When no clamp of the redo or of the undo engages, the
    undo puts the page back.
  */
  lemma OpenBatchScaleApplies(st: PageState, selection: seq<ItemRef>, answer: Option<(real, string)>, ctx: IdContext, k: nat)
    requires SelectionOf(Some(st.scene), selection) && k < |selection|
    requires OpenBatchScale(Some(st.scene), selection, answer).PushCommand?
    ensures var c := OpenBatchScale(Some(st.scene), selection, answer).c;
            var r := Redo(c, st, ctx);
            var before := st.scene.items[selection[k]];
            var after := r.1.scene.items[selection[k]];
            var size := ScaledSize(before.size, answer.value.0, answer.value.1);
            && after.size == size
            && after.data == before.data
            && (Center(RectAt(after.pos, after.size)) == Center(RectAt(before.pos, before.size))
                <==> ClampIdle(st.scene, selection[k], CenteredPos(before.pos, before.size, size)))
            && (Unclamped(st.scene, ScaleTargets(st.scene, c.snaps, answer.value.0, answer.value.1))
                && Unclamped(r.1.scene, c.snaps)
                ==> Undo(r.0, r.1).1 == st)
  {
    BatchScaleAsWritten(st, selection, answer.value.0, answer.value.1, ctx);
  }

  // -------------------------------------------------------- aspect ratio

  function AbsInt(n: int): nat {
    if n < 0 then -n else n
  }

  /** Python's `int(n / d)` on integers: the quotient rounded toward zero. */
  function TruncDiv(n: int, d: int): (q: int)
    requires d != 0
    ensures AbsInt(q) * AbsInt(d) <= AbsInt(n) < (AbsInt(q) + 1) * AbsInt(d)
    ensures q == 0 || ((q < 0) <==> ((n < 0) != (d < 0)))
  {
    var m := AbsInt(n) / AbsInt(d);
    DivBounds(AbsInt(n), AbsInt(d));
    var q := if (n < 0) != (d < 0) then -m else m;
    assert AbsInt(q) == m;
    q
  }

  lemma DivBounds(a: nat, b: nat)
    requires b > 0
    ensures 0 <= a / b && (a / b) * b <= a < (a / b + 1) * b
  {
    var m, r := a / b, a % b;
    assert a == m * b + r && 0 <= r < b;
    assert (m + 1) * b == m * b + b;
  }

  /** Which field was edited. */
  datatype SizeSource = WidthEdited | HeightEdited | RatioChosen | OtherSource

  /** The `w:h` ratio text as two integers, when it is exactly that. */
  function ParseRatio(text: string): (r: Option<(int, int)>)
    ensures r.Some? ==> |SplitOn(text, ':')| == 2
                        && ParseInt(SplitOn(text, ':')[0]) == Some(r.value.0)
                        && ParseInt(SplitOn(text, ':')[1]) == Some(r.value.1)
  {
    var parts := SplitOn(text, ':');
    if |parts| != 2 then None
    else match (ParseInt(parts[0]), ParseInt(parts[1]))
      case (Some(a), Some(b)) => Some((a, b))
      case _ => None
  }

  /**
    `_calculate_size`: with a fixed ratio `rw:rh`, an edited width (or a
    newly chosen ratio) sets the height to `int(width * rh / rw)`, an edited
    height sets the width to `int(height * rw / rh)`. A free or unknown
    ratio, an unreadable number or a zero divisor leaves both texts alone.
    Returns the new width and height texts.
  */
  function CalculateSize(ratio: Option<string>, source: SizeSource, width: string, height: string)
    : (r: (string, string))
    ensures ratio.None? || ratio.value == "" || ratio.value == "free" ==> r == (width, height)
    ensures r.0 == width || r.1 == height
    ensures r.1 != height ==>
              && (source == WidthEdited || source == RatioChosen)
              && exists rw: int, rh: int, cw: int ::
                   rw != 0 && ParseRatio(ratio.value) == Some((rw, rh)) && ParseInt(width) == Some(cw)
                   && r.1 == IntToString(TruncDiv(cw * rh, rw))
    ensures r.0 != width ==>
              && source == HeightEdited
              && exists rw: int, rh: int, ch: int ::
                   rh != 0 && ParseRatio(ratio.value) == Some((rw, rh)) && ParseInt(height) == Some(ch)
                   && r.0 == IntToString(TruncDiv(ch * rw, rh))
  {
    if ratio.None? || ratio.value == "" || ratio.value == "free" then (width, height)
    else match ParseRatio(ratio.value)
      case None => (width, height)
      case Some((rw, rh)) =>
        if source == WidthEdited || source == RatioChosen then
          match ParseInt(width)
          case Some(cw) => if rw == 0 then (width, height) else (width, IntToString(TruncDiv(cw * rh, rw)))
          case None => (width, height)
        else if source == HeightEdited then
          match ParseInt(height)
          case Some(ch) => if rh == 0 then (width, height) else (IntToString(TruncDiv(ch * rw, rh)), height)
          case None => (width, height)
        else (width, height)
  }

  /** Setting the height from a width and then the width from that height
      never gives a larger width than the one typed, and gives the same width
      back when the ratio divides it evenly. */
  lemma RatioRoundTrip(cw: nat, rw: nat, rh: nat)
    requires rw > 0 && rh > 0
    ensures var h := TruncDiv(cw * rh, rw);
            h >= 0 && TruncDiv(h * rw, rh) <= cw
    ensures (cw * rh) % rw == 0 ==> TruncDiv(TruncDiv(cw * rh, rw) * rw, rh) == cw
  {
    var a := cw * rh;
    TruncDivNat(a, rw);
    var h := a / rw;
    TruncDivNat(h * rw, rh);
    var w2 := (h * rw) / rh;
    MulCancelLe(w2, cw, rh);
    if a % rw == 0 {
      assert h * rw == a;
      MulDivExact(cw, rh);
    }
  }

  /** On non-negative operands truncating division is Dafny's division. */
  lemma TruncDivNat(a: nat, b: nat)
    requires b > 0
    ensures TruncDiv(a, b) == a / b && 0 <= a / b && (a / b) * b <= a
    ensures a % b == 0 ==> (a / b) * b == a
  {
    DivBounds(a, b);
  }

  lemma MulCancelLe(x: int, y: int, k: nat)
    requires k > 0 && x * k <= y * k
    ensures x <= y
  {
    assert (y - x) * k == y * k - x * k;
    NegativeTimesPositive(y - x, k);
  }

  lemma {:induction false} NegativeTimesPositive(d: int, k: nat)
    requires k > 0
    ensures d < 0 ==> d * k < 0
  {
    if k > 1 {
      NegativeTimesPositive(d, k - 1);
      assert d * k == d * (k - 1) + d;
    }
  }

  lemma MulDivExact(x: nat, k: nat)
    requires k > 0
    ensures (x * k) / k == x
  {
    DivBounds(x * k, k);
    var q := (x * k) / k;
    MulCancelLe(q, x, k);
    MulCancelLe(x, q + 1, k);
    assert (q + 1) * k == q * k + k;
  }
}
