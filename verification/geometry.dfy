/**
  Plane geometry of hotspot items: points, sizes and Qt-style rectangles
  (`QRectF` with its `normalized()` and `contains()`), and the two clamps the
  editor applies against an image's bounds.
*/
module Geometry {

  datatype Point = Point(x: real, y: real)

  datatype Size = Size(w: real, h: real)

  /** A rectangle given by its top-left corner and its size, like `QRectF`. */
  datatype Rect = Rect(x: real, y: real, w: real, h: real) {
    function Left(): real { x }
    function Top(): real { y }
    function Right(): real { x + w }
    function Bottom(): real { y + h }
    function TopLeft(): Point { Point(x, y) }
    function GetSize(): Size { Size(w, h) }

    /** `QRectF.contains(point)` for a rectangle of non-negative size: the
        edges belong to the rectangle and an empty rectangle holds nothing. */
    predicate Contains(p: Point) {
      w > 0.0 && h > 0.0 && x <= p.x <= x + w && y <= p.y <= y + h
    }

    /** `r` lies inside this rectangle, edges included. */
    predicate Encloses(r: Rect) {
      x <= r.x && r.x + r.w <= x + w && y <= r.y && r.y + r.h <= y + h
    }

    /** `p` is one of the four corners. */
    predicate HasCorner(p: Point) {
      (p.x == x || p.x == x + w) && (p.y == y || p.y == y + h)
    }
  }

  function Add(p: Point, q: Point): Point {
    Point(p.x + q.x, p.y + q.y)
  }

  function Min(a: real, b: real): real { if a <= b then a else b }

  function Max(a: real, b: real): real { if a >= b then a else b }

  function Abs(a: real): real { if a >= 0.0 then a else -a }

  /** The rectangle at `pos` with the given size. */
  function RectAt(pos: Point, s: Size): Rect {
    Rect(pos.x, pos.y, s.w, s.h)
  }

  /** The centre of a rectangle. */
  function Center(r: Rect): Point {
    Point(r.x + r.w / 2.0, r.y + r.h / 2.0)
  }

  /**
    The move clamp on one axis: a start below `lo` snaps to `lo`; otherwise
    an end beyond `hi` pulls the start back to `hi - size`; otherwise the
    start stays. The first test wins, so an item larger than the bounds
    keeps only one of its two edges inside them.
  */
  function ClampAxis(p: real, size: real, lo: real, hi: real): (r: real)
    ensures lo <= p && p + size <= hi ==> r == p
    ensures size <= hi - lo ==> lo <= r && r + size <= hi
    ensures size <= hi - lo ==> r == Max(lo, Min(p, hi - size))
    ensures lo <= r || r + size == hi
  {
    if p < lo then lo else if p + size > hi then hi - size else p
  }

  /** Where an item of size `s` proposed at `p` lands inside `b`. */
  function ClampMove(p: Point, s: Size, b: Rect): (r: Point)
    ensures b.Encloses(RectAt(p, s)) ==> r == p
    ensures s.w <= b.w && s.h <= b.h ==> b.Encloses(RectAt(r, s))
  {
    Point(ClampAxis(p.x, s.w, b.Left(), b.Right()), ClampAxis(p.y, s.h, b.Top(), b.Bottom()))
  }

  /** A point pulled into `b` coordinate by coordinate. */
  function ClampPoint(p: Point, b: Rect): (r: Point)
    ensures b.w >= 0.0 && b.h >= 0.0 ==> b.Left() <= r.x <= b.Right() && b.Top() <= r.y <= b.Bottom()
    ensures b.Left() <= p.x <= b.Right() && b.Top() <= p.y <= b.Bottom() ==> r == p
  {
    Point(Max(b.Left(), Min(p.x, b.Right())), Max(b.Top(), Min(p.y, b.Bottom())))
  }

  /** `QRectF(a, b).normalized()`: the rectangle with `a` and `b` as
      opposite corners. */
  function Normalized(a: Point, b: Point): (r: Rect)
    ensures r.w == Abs(a.x - b.x) && r.h == Abs(a.y - b.y)
    ensures r.HasCorner(a) && r.HasCorner(b)
    ensures Center(r) == Point((a.x + b.x) / 2.0, (a.y + b.y) / 2.0)
  {
    Rect(Min(a.x, b.x), Min(a.y, b.y), Abs(a.x - b.x), Abs(a.y - b.y))
  }

  /** Both corners inside `b` put the whole normalised rectangle inside. */
  lemma NormalizedWithin(a: Point, c: Point, b: Rect)
    requires b.Left() <= a.x <= b.Right() && b.Top() <= a.y <= b.Bottom()
    requires b.Left() <= c.x <= b.Right() && b.Top() <= c.y <= b.Bottom()
    ensures b.Encloses(Normalized(a, c))
  {
  }

  /**
    Corner `i` of the item-local rectangle `(0, 0, w, h)`, in the order the
    resize handles use: 0 top-left, 1 top-right, 2 bottom-right, 3 bottom-left.
  */
  function Corner(s: Size, i: nat): (p: Point)
    requires i < 4
    ensures Rect(0.0, 0.0, s.w, s.h).HasCorner(p)
  {
    match i
    case 0 => Point(0.0, 0.0)
    case 1 => Point(s.w, 0.0)
    case 2 => Point(s.w, s.h)
    case _ => Point(0.0, s.h)
  }

  /** The handle diagonally across from handle `i`. */
  function Opposite(i: nat): (j: nat)
    requires i < 4
    ensures j < 4 && j != i
  {
    match i
    case 0 => 2
    case 1 => 3
    case 2 => 0
    case _ => 1
  }

  /** Opposite corners differ in both coordinates by the full size. */
  lemma OppositeCornersSpan(s: Size, i: nat)
    requires i < 4
    ensures Abs(Corner(s, i).x - Corner(s, Opposite(i)).x) == Abs(s.w)
    ensures Abs(Corner(s, i).y - Corner(s, Opposite(i)).y) == Abs(s.h)
  {
  }
}
