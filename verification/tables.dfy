/**
  Merging detected table cells into larger hotspots. Cells are grouped into
  columns (by x) or rows (by y) with a tolerance, each group is ordered
  along its other axis, and every run of `k` consecutive cells becomes one
  cell: their bounding box, with their non-empty texts joined by spaces.
  The detection of the cells in a PDF page is not part of this model.
*/
module Tables {
  import opened Text

  datatype Cell = Cell(x: real, y: real, width: real, height: real, text: string)

  /** Merging down columns (group by x, order by y) or along rows (group by
      y, order by x). */
  datatype Axis = Columns | Rows

  /** The coordinate cells are grouped by. */
  function Along(c: Cell, axis: Axis): real {
    if axis == Columns then c.x else c.y
  }

  /** The coordinate a group is ordered by. */
  function Across(c: Cell, axis: Axis): real {
    if axis == Columns then c.y else c.x
  }

  // ------------------------------------------------------------- sorting

  /** The two orders the merge sorts by: the pair (grouping, ordering
      coordinate), or the ordering coordinate alone. */
  datatype Order = ByPair(axis: Axis) | ByAcross(axis: Axis)

  predicate Le(a: Cell, b: Cell, o: Order) {
    match o
    case ByPair(axis) =>
      Along(a, axis) < Along(b, axis) || (Along(a, axis) == Along(b, axis) && Across(a, axis) <= Across(b, axis))
    case ByAcross(axis) => Across(a, axis) <= Across(b, axis)
  }

  predicate Sorted(s: seq<Cell>, o: Order) {
    forall i, j :: 0 <= i < j < |s| ==> Le(s[i], s[j], o)
  }

  /** Insert after every cell that is not greater, so equal cells keep their
      arrival order. */
  function InsertCell(c: Cell, s: seq<Cell>, o: Order): (r: seq<Cell>)
    requires Sorted(s, o)
    ensures Sorted(r, o) && multiset(r) == multiset(s) + multiset{c}
    decreases |s|
  {
    if |s| == 0 then [c]
    else if !Le(s[0], c, o) then
      BelowSorted(c, s, o);
      [c] + s
    else
      var rest := InsertCell(c, s[1..], o);
      assert s == [s[0]] + s[1..];
      forall x | x in rest ensures Le(s[0], x, o) {
        assert x in multiset(rest);
        if x != c { SortedHead(s, x, o); }
      }
      SortedCons(s[0], rest, o);
      [s[0]] + rest
  }

  /** A cell not below the first of a sorted sequence is below all of them. */
  lemma BelowSorted(c: Cell, s: seq<Cell>, o: Order)
    requires Sorted(s, o) && |s| > 0 && !Le(s[0], c, o)
    ensures Sorted([c] + s, o)
  {
    forall y | y in s ensures Le(c, y, o) {
      SortedHead(s, y, o);
    }
    SortedCons(c, s, o);
  }

  /** The first cell of a sorted sequence is below every cell in it. */
  lemma SortedHead(s: seq<Cell>, y: Cell, o: Order)
    requires Sorted(s, o) && |s| > 0 && y in s
    ensures Le(s[0], y, o)
  {
    var j :| 0 <= j < |s| && s[j] == y;
  }

  lemma SortedCons(x: Cell, s: seq<Cell>, o: Order)
    requires Sorted(s, o) && forall y | y in s :: Le(x, y, o)
    ensures Sorted([x] + s, o)
  {
    var r := [x] + s;
    forall i, j | 0 <= i < j < |r| ensures Le(r[i], r[j], o) {
      assert r[j] == s[j - 1];
      if i > 0 { assert r[i] == s[i - 1]; }
    }
  }

  /** Python's `sorted` (an insertion sort, stable). */
  function SortCells(s: seq<Cell>, o: Order): (r: seq<Cell>)
    ensures Sorted(r, o) && multiset(r) == multiset(s)
    decreases |s|
  {
    if |s| == 0 then []
    else
      assert s == s[..|s| - 1] + [s[|s| - 1]];
      InsertCell(s[|s| - 1], SortCells(s[..|s| - 1], o), o)
  }

  // ------------------------------------------------------------ grouping

  function AbsReal(v: real): real {
    if v < 0.0 then -v else v
  }

  /** A cell belongs to the group started by `head`. */
  predicate Close(c: Cell, head: Cell, axis: Axis, tol: real) {
    AbsReal(Along(c, axis) - Along(head, axis)) < tol
  }

  /** How many leading cells of `s` are close to `head`. */
  function RunLength(s: seq<Cell>, head: Cell, axis: Axis, tol: real): (n: nat)
    ensures n <= |s|
    ensures forall i :: 0 <= i < n ==> Close(s[i], head, axis, tol)
    ensures n < |s| ==> !Close(s[n], head, axis, tol)
    decreases |s|
  {
    if |s| > 0 && Close(s[0], head, axis, tol) then 1 + RunLength(s[1..], head, axis, tol) else 0
  }

  function Flatten<T>(gs: seq<seq<T>>): seq<T>
    decreases |gs|
  {
    if |gs| == 0 then [] else gs[0] + Flatten(gs[1..])
  }

  /** The grouping loop: a group is a cell and the run of cells after it
      that are close to it; the next cell that is not starts a new group. */
  function Groups(s: seq<Cell>, axis: Axis, tol: real): (gs: seq<seq<Cell>>)
    ensures Flatten(gs) == s
    ensures forall g :: 0 <= g < |gs| ==> |gs[g]| > 0
    decreases |s|
  {
    if |s| == 0 then []
    else
      var n := 1 + RunLength(s[1..], s[0], axis, tol);
      assert s == s[..n] + s[n..];
      [s[..n]] + Groups(s[n..], axis, tol)
  }

  /** What a grouping must be: every cell of a group is close to the
      group's first cell, and the first cell of each later group is not
      close to the first cell of the group before it. */
  predicate GroupedBy(gs: seq<seq<Cell>>, axis: Axis, tol: real) {
    && (forall g :: 0 <= g < |gs| ==> |gs[g]| > 0)
    && (forall g, i :: 0 <= g < |gs| && 0 < i < |gs[g]| ==> Close(gs[g][i], gs[g][0], axis, tol))
    && (forall g :: 0 < g < |gs| ==> !Close(gs[g][0], gs[g - 1][0], axis, tol))
  }

  /** The grouping loop's groups are a grouping of the sorted cells. */
  lemma {:induction false} GroupsAreGrouping(s: seq<Cell>, axis: Axis, tol: real)
    ensures GroupedBy(Groups(s, axis, tol), axis, tol)
    decreases |s|
  {
    if |s| > 0 {
      var n := 1 + RunLength(s[1..], s[0], axis, tol);
      var gs := Groups(s, axis, tol);
      var rest := Groups(s[n..], axis, tol);
      var first := s[..n];
      forall i | 0 < i < n ensures Close(first[i], first[0], axis, tol) {
        assert first[i] == s[1..][i - 1];
      }
      if |rest| > 0 {
        assert Flatten(rest) == rest[0] + Flatten(rest[1..]);
        assert rest[0][0] == s[n];
        assert s[n] == s[1..][n - 1];
      }
      GroupsAreGrouping(s[n..], axis, tol);
      GroupedByCons(first, rest, axis, tol);
    }
  }

  /** A group of cells close to its first, before a grouping whose first
      group does not start close to it, makes a grouping. */
  lemma GroupedByCons(first: seq<Cell>, rest: seq<seq<Cell>>, axis: Axis, tol: real)
    requires |first| > 0 && GroupedBy(rest, axis, tol)
    requires forall i :: 0 < i < |first| ==> Close(first[i], first[0], axis, tol)
    requires |rest| > 0 ==> !Close(rest[0][0], first[0], axis, tol)
    ensures GroupedBy([first] + rest, axis, tol)
  {
    var gs := [first] + rest;
    forall g | 1 < g < |gs| ensures !Close(gs[g][0], gs[g - 1][0], axis, tol) {
      assert gs[g] == rest[g - 1] && gs[g - 1] == rest[g - 2];
    }
  }

  /** A grouping is determined by the cells: any two groupings of the same
      cells are the same. */
  lemma {:induction false} GroupingUnique(gs: seq<seq<Cell>>, hs: seq<seq<Cell>>, axis: Axis, tol: real)
    requires GroupedBy(gs, axis, tol) && GroupedBy(hs, axis, tol) && Flatten(gs) == Flatten(hs)
    ensures gs == hs
    decreases |gs|
  {
    if |gs| > 0 && |hs| > 0 {
      var s := Flatten(gs);
      assert s == gs[0] + Flatten(gs[1..]);
      assert s == hs[0] + Flatten(hs[1..]);
      var head := s[0];
      assert gs[0][0] == head && hs[0][0] == head;
      // Both first groups are the longest run close to the head.
      FirstGroupIsRun(gs, axis, tol);
      FirstGroupIsRun(hs, axis, tol);
      assert |gs[0]| == |hs[0]|;
      assert gs[0] == s[..|gs[0]|] && hs[0] == s[..|hs[0]|];
      assert Flatten(gs[1..]) == s[|gs[0]|..] == Flatten(hs[1..]);
      TailGrouped(gs, axis, tol);
      TailGrouped(hs, axis, tol);
      GroupingUnique(gs[1..], hs[1..], axis, tol);
      assert gs == [gs[0]] + gs[1..] && hs == [hs[0]] + hs[1..];
    }
  }

  lemma TailGrouped(gs: seq<seq<Cell>>, axis: Axis, tol: real)
    requires GroupedBy(gs, axis, tol) && |gs| > 0
    ensures GroupedBy(gs[1..], axis, tol)
  {
    forall g | 0 < g < |gs| - 1 ensures !Close(gs[1..][g][0], gs[1..][g - 1][0], axis, tol) {
      assert gs[1..][g] == gs[g + 1] && gs[1..][g - 1] == gs[g];
    }
  }

  /** The first group of a grouping is its first cell and the run after it. */
  lemma FirstGroupIsRun(gs: seq<seq<Cell>>, axis: Axis, tol: real)
    requires GroupedBy(gs, axis, tol) && |gs| > 0
    ensures var s := Flatten(gs);
            |s| > 0 && s[0] == gs[0][0] && |gs[0]| == 1 + RunLength(s[1..], s[0], axis, tol)
  {
    var s := Flatten(gs);
    assert s == gs[0] + Flatten(gs[1..]);
    var n := |gs[0]|;
    var t := s[1..];
    var m := RunLength(t, s[0], axis, tol);
    forall i | 0 <= i < n - 1 ensures Close(t[i], s[0], axis, tol) {
      assert t[i] == gs[0][i + 1];
    }
    if |gs| > 1 {
      assert Flatten(gs[1..]) == gs[1] + Flatten(gs[2..]);
      assert t[n - 1] == gs[1][0];
    } else {
      assert Flatten(gs[1..]) == [];
    }
  }

  // ------------------------------------------------------------ chunking

  /** `column[i:i+k]` for i = 0, k, 2k, …: runs of `k` cells, the last one
      possibly shorter. */
  function Chunks(g: seq<Cell>, k: nat): (cs: seq<seq<Cell>>)
    requires k > 0
    ensures forall i :: 0 <= i < |cs| ==> 0 < |cs[i]| <= k
    ensures forall i :: 0 <= i < |cs| - 1 ==> |cs[i]| == k
    decreases |g|
  {
    if |g| == 0 then []
    else if |g| <= k then [g]
    else [g[..k]] + Chunks(g[k..], k)
  }

  /** The runs, put back together, are the group. */
  lemma {:induction false} ChunksFlatten(g: seq<Cell>, k: nat)
    requires k > 0
    ensures Flatten(Chunks(g, k)) == g
    decreases |g|
  {
    if |g| > k {
      var rest := Chunks(g[k..], k);
      ChunksFlatten(g[k..], k);
      assert Chunks(g, k) == [g[..k]] + rest;
      assert Flatten([g[..k]] + rest) == g[..k] + Flatten(rest);
      assert g == g[..k] + g[k..];
    } else if |g| > 0 {
      assert Flatten([g]) == g + Flatten([]);
    }
  }

  /** ceil(n/k): the number of runs of `k` in `n` cells. */
  function RunCount(n: nat, k: nat): (c: nat)
    requires k > 0
    ensures n > 0 ==> c > 0
    decreases n
  {
    if n == 0 then 0 else if n <= k then 1 else 1 + RunCount(n - k, k)
  }

  /** A group of n cells is cut into ceil(n/k) runs. */
  lemma {:induction false} ChunksCount(g: seq<Cell>, k: nat)
    requires k > 0
    ensures |Chunks(g, k)| == RunCount(|g|, k)
    decreases |g|
  {
    if |g| > k {
      ChunksCount(g[k..], k);
    }
  }

  // -------------------------------------------------------------- merging

  function MinOf(xs: seq<real>): (m: real)
    requires |xs| > 0
    ensures forall i :: 0 <= i < |xs| ==> m <= xs[i]
    ensures exists i :: 0 <= i < |xs| && m == xs[i]
  {
    if |xs| == 1 then xs[0]
    else
      var r := MinOf(xs[1..]);
      assert forall i :: 1 <= i < |xs| ==> xs[i] == xs[1..][i - 1];
      if xs[0] <= r then xs[0] else r
  }

  function MaxOf(xs: seq<real>): (m: real)
    requires |xs| > 0
    ensures forall i :: 0 <= i < |xs| ==> xs[i] <= m
    ensures exists i :: 0 <= i < |xs| && m == xs[i]
  {
    if |xs| == 1 then xs[0]
    else
      var r := MaxOf(xs[1..]);
      assert forall i :: 1 <= i < |xs| ==> xs[i] == xs[1..][i - 1];
      if xs[0] >= r then xs[0] else r
  }

  /** The texts of the cells that have one, in order. */
  function Texts(cs: seq<Cell>): (ts: seq<string>)
    ensures forall i :: 0 <= i < |ts| ==> ts[i] != ""
    ensures |ts| <= |cs|
  {
    if |cs| == 0 then []
    else (if cs[0].text != "" then [cs[0].text] else []) + Texts(cs[1..])
  }

  /** One chunk as one cell: the bounding box of the chunk's cells and
      their texts joined by single spaces. */
  /** `m` is the smallest box holding every cell of the chunk: it holds
      each of them, and each of its four sides touches one of them. */
  predicate BoundingBox(m: Cell, chunk: seq<Cell>) {
    && (forall i :: 0 <= i < |chunk| ==>
          && m.x <= chunk[i].x && m.y <= chunk[i].y
          && chunk[i].x + chunk[i].width <= m.x + m.width
          && chunk[i].y + chunk[i].height <= m.y + m.height)
    && (exists i :: 0 <= i < |chunk| && m.x == chunk[i].x)
    && (exists i :: 0 <= i < |chunk| && m.y == chunk[i].y)
    && (exists i :: 0 <= i < |chunk| && m.x + m.width == chunk[i].x + chunk[i].width)
    && (exists i :: 0 <= i < |chunk| && m.y + m.height == chunk[i].y + chunk[i].height)
  }

  function MergeChunk(chunk: seq<Cell>): (m: Cell)
    requires |chunk| > 0
    ensures BoundingBox(m, chunk)
    ensures m.text == Join(Texts(chunk), " ")
  {
    var xs := seq(|chunk|, i requires 0 <= i < |chunk| => chunk[i].x);
    var ys := seq(|chunk|, i requires 0 <= i < |chunk| => chunk[i].y);
    var x1s := seq(|chunk|, i requires 0 <= i < |chunk| => chunk[i].x + chunk[i].width);
    var y1s := seq(|chunk|, i requires 0 <= i < |chunk| => chunk[i].y + chunk[i].height);
    var (minX, minY, maxX1, maxY1) := (MinOf(xs), MinOf(ys), MaxOf(x1s), MaxOf(y1s));
    forall i | 0 <= i < |chunk|
      ensures minX <= chunk[i].x && minY <= chunk[i].y
      ensures chunk[i].x + chunk[i].width <= maxX1 && chunk[i].y + chunk[i].height <= maxY1
    {
      assert xs[i] == chunk[i].x && ys[i] == chunk[i].y;
      assert x1s[i] == chunk[i].x + chunk[i].width && y1s[i] == chunk[i].y + chunk[i].height;
    }
    Cell(minX, minY, maxX1 - minX, maxY1 - minY, Join(Texts(chunk), " "))
  }

  function MergeChunks(cs: seq<seq<Cell>>): (ms: seq<Cell>)
    requires forall i :: 0 <= i < |cs| ==> |cs[i]| > 0
    ensures |ms| == |cs|
    ensures forall i :: 0 <= i < |cs| ==> ms[i] == MergeChunk(cs[i])
  {
    seq(|cs|, i requires 0 <= i < |cs| => MergeChunk(cs[i]))
  }

  /** One group: ordered along the other axis, cut into chunks, merged. */
  function MergeGroup(g: seq<Cell>, axis: Axis, k: nat): (ms: seq<Cell>)
    requires k > 0
    ensures |ms| == RunCount(|g|, k)
  {
    var ordered := SortCells(g, ByAcross(axis));
    assert |ordered| == |multiset(ordered)| == |multiset(g)| == |g|;
    ChunksCount(ordered, k);
    MergeChunks(Chunks(ordered, k))
  }

  function MergeGroups(gs: seq<seq<Cell>>, axis: Axis, k: nat): (ms: seq<Cell>)
    requires k > 0
    decreases |gs|
  {
    if |gs| == 0 then [] else MergeGroup(gs[0], axis, k) + MergeGroups(gs[1..], axis, k)
  }

  /** Merging along one axis: sort by the pair, group, merge each group. */
  function MergeAlong(cells: seq<Cell>, axis: Axis, k: nat, tol: real): (ms: seq<Cell>)
    requires k > 0
    ensures |cells| == 0 ==> ms == []
  {
    if |cells| == 0 then []
    else MergeGroups(Groups(SortCells(cells, ByPair(axis)), axis, tol), axis, k)
  }

  /**
    `_merge_hotspots`: with both counts at most 0 the cells are returned as
    they are; a positive vertical count merges down columns (with the x
    tolerance) whatever the horizontal count; otherwise a positive
    horizontal count merges along rows (with the y tolerance).
  */
  function MergeHotspots(cells: seq<Cell>, vCount: int, hCount: int, xTol: real, yTol: real): (ms: seq<Cell>)
    ensures vCount <= 0 && hCount <= 0 ==> ms == cells
    ensures vCount > 0 ==> ms == MergeAlong(cells, Columns, vCount, xTol)
    ensures vCount <= 0 && hCount > 0 ==> ms == MergeAlong(cells, Rows, hCount, yTol)
  {
    if vCount <= 0 && hCount <= 0 then cells
    else if vCount > 0 then MergeAlong(cells, Columns, vCount, xTol)
    else MergeAlong(cells, Rows, hCount, yTol)
  }

  // ------------------------------------------------------------ properties

  function Counts(gs: seq<seq<Cell>>, k: nat): nat
    requires k > 0
    decreases |gs|
  {
    if |gs| == 0 then 0 else RunCount(|gs[0]|, k) + Counts(gs[1..], k)
  }

  /** Each group of n cells gives ceil(n/k) merged cells. */
  lemma {:induction false} MergeGroupsCount(gs: seq<seq<Cell>>, axis: Axis, k: nat)
    requires k > 0
    ensures |MergeGroups(gs, axis, k)| == Counts(gs, k)
    decreases |gs|
  {
    if |gs| > 0 {
      MergeGroupsCount(gs[1..], axis, k);
    }
  }

  /** Merging never yields more cells than it was given, and merging in
      runs of one keeps the number of cells. */
  lemma {:induction false} CountsBound(gs: seq<seq<Cell>>, k: nat)
    requires k > 0
    ensures Counts(gs, k) <= |Flatten(gs)|
    ensures k == 1 ==> Counts(gs, k) == |Flatten(gs)|
    decreases |gs|
  {
    if |gs| > 0 {
      CountsBound(gs[1..], k);
      RunCountAtMost(|gs[0]|, k);
    }
  }

  lemma {:induction false} RunCountAtMost(n: nat, k: nat)
    requires k > 0
    ensures RunCount(n, k) <= n
    ensures k == 1 ==> RunCount(n, k) == n
    decreases n
  {
    if n > k {
      RunCountAtMost(n - k, k);
    }
  }

  /** The number of merged cells: one per run of `k` cells in each group,
      and never more than the cells given. */
  lemma MergeAlongCount(cells: seq<Cell>, axis: Axis, k: nat, tol: real)
    requires k > 0 && |cells| > 0
    ensures var gs := Groups(SortCells(cells, ByPair(axis)), axis, tol);
            |MergeAlong(cells, axis, k, tol)| == Counts(gs, k) <= |cells|
  {
    var sorted := SortCells(cells, ByPair(axis));
    var gs := Groups(sorted, axis, tol);
    MergeGroupsCount(gs, axis, k);
    CountsBound(gs, k);
    assert |sorted| == |multiset(sorted)| == |multiset(cells)| == |cells|;
  }

  function Min(a: int, b: int): int {
    if a <= b then a else b
  }

  /** Where the j-th run starts: j * k. */
  function Start(j: nat, k: nat): nat {
    if j == 0 then 0 else Start(j - 1, k) + k
  }

  lemma {:induction false} StartIsProduct(j: nat, k: nat)
    ensures Start(j, k) == j * k
  {
    if j > 0 {
      StartIsProduct(j - 1, k);
      MulStep(j, k);
    }
  }

  /** Each merged cell of a group is the bounding box of one run of `k`
      cells of the group, taken in order along the other axis. */
  /** The j-th run of `k` cells of `o`: from j*k on, `k` cells or the rest. */
  function Run(o: seq<Cell>, k: nat, j: nat): (run: seq<Cell>)
    requires k > 0 && Start(j, k) < |o|
    ensures |run| > 0
  {
    o[Start(j, k)..Min(Start(j, k) + k, |o|)]
  }

  lemma MergeGroupCells(g: seq<Cell>, axis: Axis, k: nat, j: nat)
    requires k > 0 && j < |MergeGroup(g, axis, k)|
    ensures var ordered := SortCells(g, ByAcross(axis));
            Start(j, k) < |ordered| && MergeGroup(g, axis, k)[j] == MergeChunk(Run(ordered, k, j))
  {
    var ordered := SortCells(g, ByAcross(axis));
    assert MergeGroup(g, axis, k) == MergeChunks(Chunks(ordered, k));
    MergedRunAt(ordered, k, j);
  }

  lemma MergedRunAt(o: seq<Cell>, k: nat, j: nat)
    requires k > 0 && j < |Chunks(o, k)|
    ensures Start(j, k) < |o|
    ensures MergeChunks(Chunks(o, k))[j] == MergeChunk(Run(o, k, j))
  {
    var cs := Chunks(o, k);
    ChunkAt(o, k, j);
    assert RunAt(o, k, j);
    assert cs[j] == Run(o, k, j);
    var ms := MergeChunks(cs);
    assert ms[j] == MergeChunk(cs[j]);
    SameChunk(cs[j], Run(o, k, j));
  }

  lemma SameChunk(a: seq<Cell>, b: seq<Cell>)
    requires |a| > 0 && a == b
    ensures MergeChunk(a) == MergeChunk(b)
  {
  }

  /** The j-th run of a group starts at j*k and holds k cells, or the rest. */
  predicate RunAt(g: seq<Cell>, k: nat, j: nat)
    requires k > 0
  {
    j < |Chunks(g, k)| ==> Start(j, k) < |g| && Chunks(g, k)[j] == g[Start(j, k)..Min(Start(j, k) + k, |g|)]
  }

  lemma {:induction false} ChunkAt(g: seq<Cell>, k: nat, j: nat)
    requires k > 0
    ensures RunAt(g, k, j)
    decreases j
  {
    if j == 0 {
      FirstRun(g, k);
    } else if |g| > k {
      ChunkAt(g[k..], k, j - 1);
      NextRun(g, k, j);
    }
  }

  lemma FirstRun(g: seq<Cell>, k: nat)
    requires k > 0
    ensures RunAt(g, k, 0)
  {
    if |g| > k {
      ChunksTail(g, k);
    } else if |g| > 0 {
      assert Chunks(g, k) == [g];
    }
  }

  lemma NextRun(g: seq<Cell>, k: nat, j: nat)
    requires k > 0 && j > 0 && |g| > k && RunAt(g[k..], k, j - 1)
    ensures RunAt(g, k, j)
  {
    var t := g[k..];
    ChunksTail(g, k);
    if j < |Chunks(g, k)| {
      var a := Start(j - 1, k);
      var b := Min(a + k, |t|);
      SliceShift(g, k, a, b);
      assert Chunks(g, k)[j] == Chunks(t, k)[j - 1] == t[a..b];
      assert Start(j, k) == a + k && Min(a + k + k, |g|) == b + k;
    }
  }

  lemma ChunksTail(g: seq<Cell>, k: nat)
    requires k > 0 && |g| > k
    ensures Chunks(g, k) == [g[..k]] + Chunks(g[k..], k)
  {
  }

  lemma SliceShift(g: seq<Cell>, k: nat, a: nat, b: nat)
    requires k <= |g| && a <= b <= |g| - k
    ensures g[k..][a..b] == g[a + k..b + k]
  {
  }

  lemma MulStep(j: nat, k: nat)
    requires j > 0
    ensures j * k == (j - 1) * k + k
  {
  }

  // ------------------------------------------------------------- coverage

  /** Cell `c` lies within box `m`. */
  predicate Inside(c: Cell, m: Cell) {
    && m.x <= c.x && m.y <= c.y
    && c.x + c.width <= m.x + m.width && c.y + c.height <= m.y + m.height
  }

  lemma {:induction false} FlattenMember<T>(gs: seq<seq<T>>, c: T)
    requires c in Flatten(gs)
    ensures exists g :: 0 <= g < |gs| && c in gs[g]
    decreases |gs|
  {
    if c !in gs[0] {
      FlattenMember(gs[1..], c);
      var g :| 0 <= g < |gs[1..]| && c in gs[1..][g];
      assert gs[g + 1] == gs[1..][g];
    }
  }

  /** Every cell of a group lies within one of the group's merged cells. */
  lemma MergeGroupCovers(g: seq<Cell>, axis: Axis, k: nat, c: Cell)
    requires k > 0 && c in g
    ensures exists m :: m in MergeGroup(g, axis, k) && Inside(c, m)
  {
    var ordered := SortCells(g, ByAcross(axis));
    assert c in multiset(g);
    assert c in ordered;
    var cs := Chunks(ordered, k);
    ChunksFlatten(ordered, k);
    FlattenMember(cs, c);
    var i :| 0 <= i < |cs| && c in cs[i];
    var ms := MergeChunks(cs);
    assert MergeGroup(g, axis, k) == ms;
    var m := ms[i];
    assert m == MergeChunk(cs[i]);
    assert BoundingBox(m, cs[i]);
    var p :| 0 <= p < |cs[i]| && cs[i][p] == c;
    assert Inside(c, m);
  }

  lemma {:induction false} MergeGroupsCovers(gs: seq<seq<Cell>>, axis: Axis, k: nat, c: Cell)
    requires k > 0 && c in Flatten(gs)
    ensures exists m :: m in MergeGroups(gs, axis, k) && Inside(c, m)
    decreases |gs|
  {
    var here := MergeGroup(gs[0], axis, k);
    var rest := MergeGroups(gs[1..], axis, k);
    assert MergeGroups(gs, axis, k) == here + rest;
    if c in gs[0] {
      MergeGroupCovers(gs[0], axis, k, c);
      var m :| m in here && Inside(c, m);
      assert m in here + rest;
    } else {
      MergeGroupsCovers(gs[1..], axis, k, c);
      var m :| m in rest && Inside(c, m);
      assert m in here + rest;
    }
  }

  /** Merging loses no cell: every cell given lies within some merged cell. */
  lemma MergeHotspotsCovers(cells: seq<Cell>, vCount: int, hCount: int, xTol: real, yTol: real, c: Cell)
    requires c in cells
    ensures exists m :: m in MergeHotspots(cells, vCount, hCount, xTol, yTol) && Inside(c, m)
  {
    if vCount <= 0 && hCount <= 0 {
      assert Inside(c, c);
    } else {
      var (axis, k, tol) := if vCount > 0 then (Columns, vCount, xTol) else (Rows, hCount, yTol);
      var sorted := SortCells(cells, ByPair(axis));
      assert c in multiset(cells);
      assert c in sorted;
      MergeGroupsCovers(Groups(sorted, axis, tol), axis, k, c);
    }
  }
}
