/**
  The book outline: a tree of titled entries, each pointing at a page. The
  outline travels to and from a spreadsheet as (level, title, page) rows,
  is shown and edited in a two-column tree view whose cells hold text, and
  is written into the exported pages as nested HTML lists.
*/
module Outline {
  import opened Options
  import opened Text
  import opened Cells

  datatype Node = Node(title: string, page: int, children: seq<Node>)

  /** Every page of the tree sent through `f`, the shape kept. */
  function MapPages(nodes: seq<Node>, f: int -> int): (r: seq<Node>)
    ensures |r| == |nodes|
    decreases nodes
  {
    if |nodes| == 0 then []
    else [Node(nodes[0].title, f(nodes[0].page), MapPages(nodes[0].children, f))] + MapPages(nodes[1..], f)
  }

  /** Every page of the tree satisfies `p`. */
  predicate AllPages(nodes: seq<Node>, p: int -> bool)
    decreases nodes
  {
    |nodes| > 0 ==> p(nodes[0].page) && AllPages(nodes[0].children, p) && AllPages(nodes[1..], p)
  }

  // =============================================================== export

  const Header: Row := [StrValue("Level"), StrValue("Title"), StrValue("Page")]

  /** `_recursive_write`: each node as (level, title, page), then its
      children one level deeper, in preorder. */
  function Rows(nodes: seq<Node>, level: int): (rows: seq<Row>)
    ensures forall i :: 0 <= i < |rows| ==> |rows[i]| == 3
    decreases nodes
  {
    if |nodes| == 0 then []
    else
      var n := nodes[0];
      [[IntValue(level), StrValue(n.title), IntValue(n.page)]] + Rows(n.children, level + 1) + Rows(nodes[1..], level)
  }

  /** `export_to_excel`: the header row, then the outline from level 1. */
  function ExportSheet(nodes: seq<Node>): (rows: seq<Row>)
    ensures |rows| >= 1 && rows[0] == Header
  {
    [Header] + Rows(nodes, 1)
  }

  function Count(nodes: seq<Node>): nat
    decreases nodes
  {
    if |nodes| == 0 then 0 else 1 + Count(nodes[0].children) + Count(nodes[1..])
  }

  /** One row per node, each at its depth plus the starting level. */
  lemma {:induction false} RowsCount(nodes: seq<Node>, level: int)
    ensures |Rows(nodes, level)| == Count(nodes)
    ensures forall i :: 0 <= i < |Rows(nodes, level)| ==> Rows(nodes, level)[i][0].IntValue? && Rows(nodes, level)[i][0].i >= level
    decreases nodes
  {
    if |nodes| > 0 {
      RowsCount(nodes[0].children, level + 1);
      RowsCount(nodes[1..], level);
    }
  }

  // =============================================================== import

  /** The level cell when it is an `int` (a bool is one too in Python). */
  function LevelOf(v: Value): Option<int> {
    match v
    case IntValue(i) => Some(i)
    case BoolValue(b) => Some(if b then 1 else 0)
    case _ => None
  }

  /** `str(title)`, or nothing for an empty cell. */
  function TitleOf(v: Value): Option<string> {
    match v
    case NoValue => None
    case IntValue(i) => Some(IntToString(i))
    case FloatValue(_, shown) => Some(shown)
    case StrValue(s) => Some(s)
    case BoolValue(b) => Some(if b then "True" else "False")
  }

  /** `int(page)`, or nothing for an empty cell or one `int` rejects. */
  function PageOf(v: Value): Option<int> {
    match v
    case NoValue => None
    case IntValue(i) => Some(i)
    case FloatValue(r, _) => Some(TruncReal(r))
    case StrValue(s) => ParseInt(s)
    case BoolValue(b) => Some(if b then 1 else 0)
  }

  /** How deep the last entry of the tree sits along its last branch. */
  function RightDepth(nodes: seq<Node>): nat
    decreases nodes
  {
    if |nodes| == 0 then 0 else 1 + RightDepth(nodes[|nodes| - 1].children)
  }

  /** Append `n` to the list `depth` steps down the last branch (0: the
      top level). */
  function AppendAt(nodes: seq<Node>, depth: nat, n: Node): (r: seq<Node>)
    requires depth <= RightDepth(nodes)
    ensures RightDepth(r) == depth + 1 + RightDepth(n.children)
    decreases depth
  {
    if depth == 0 then
      assert (nodes + [n])[|nodes|] == n;
      nodes + [n]
    else
      var last := nodes[|nodes| - 1];
      var r := nodes[..|nodes| - 1] + [last.(children := AppendAt(last.children, depth - 1, n))];
      assert r[|r| - 1] == last.(children := AppendAt(last.children, depth - 1, n));
      r
  }

  /** The tree being built and the height of the parent stack. The stack
      holds the top-level list and then the child lists along the last
      branch, so its height is at most one more than that branch's depth. */
  datatype Build = Build(roots: seq<Node>, stack: nat)

  predicate BuildValid(b: Build) {
    1 <= b.stack <= RightDepth(b.roots) + 1
  }

  /** A node can be appended at this depth and its row read at depth+1. */
  predicate ReadyAt(b: Build, depth: nat) {
    BuildValid(b) && depth <= RightDepth(b.roots) && b.stack >= depth + 1
  }

  /**
    One spreadsheet row. Empty rows are skipped; so are rows whose level is
    not an `int` of at least 1, whose title or page is empty, or whose page
    `int` rejects. The level is cut down to the stack height, the stack
    popped to it, the node appended to the list on top and its child list
    pushed. A row of fewer than three cells, not empty, raises an error no
    one catches: `None`.
  */
  function ImportRow(b: Build, row: Row): (r: Option<Build>)
    requires BuildValid(b)
    ensures r.Some? ==> BuildValid(r.value)
  {
    if !AnyTruthy(row) then Some(b)
    else if |row| < 3 then None
    else
      match (LevelOf(row[0]), TitleOf(row[1]), PageOf(row[2]))
      case (Some(level), Some(title), Some(page)) =>
        if level < 1 then Some(b)
        else
          var top := if level > b.stack then b.stack else level;
          Some(Build(AppendAt(b.roots, top - 1, Node(title, page, [])), top + 1))
      case _ => Some(b)
  }

  function ImportRows(rows: seq<Row>, b: Build): (r: Option<Build>)
    requires BuildValid(b)
    ensures r.Some? ==> BuildValid(r.value)
    decreases |rows|
  {
    if |rows| == 0 then Some(b)
    else
      match ImportRow(b, rows[0])
      case Some(b1) => ImportRows(rows[1..], b1)
      case None => None
  }

  /** `import_from_excel`: every row after the first (the header). */
  function ImportSheet(rows: seq<Row>): (r: Option<seq<Node>>)
    ensures |rows| <= 1 ==> r == Some([])
  {
    if |rows| == 0 then Some([])
    else
      match ImportRows(rows[1..], Build([], 1))
      case Some(b) => Some(b.roots)
      case None => None
  }

  lemma {:induction false} ImportRowsAppend(a: seq<Row>, c: seq<Row>, b: Build)
    requires BuildValid(b)
    ensures ImportRows(a + c, b) == match ImportRows(a, b) case Some(b1) => ImportRows(c, b1) case None => None
    decreases |a|
  {
    if |a| > 0 {
      assert (a + c)[0] == a[0] && (a + c)[1..] == a[1..] + c;
      match ImportRow(b, a[0])
      case Some(b1) => ImportRowsAppend(a[1..], c, b1);
      case None =>
    } else {
      assert a + c == c;
    }
  }

  /** Append a list of nodes, one after the other, at the same depth. */
  function AppendAllAt(nodes: seq<Node>, depth: nat, ns: seq<Node>): seq<Node>
    requires depth <= RightDepth(nodes)
    decreases |ns|
  {
    if |ns| == 0 then nodes else AppendAllAt(AppendAt(nodes, depth, ns[0]), depth, ns[1..])
  }

  /** Appending below a just appended node is appending to its children. */
  lemma {:induction false} AppendNested(nodes: seq<Node>, depth: nat, m: Node, c: Node)
    requires depth <= RightDepth(nodes)
    ensures AppendAt(AppendAt(nodes, depth, m), depth + 1, c) == AppendAt(nodes, depth, m.(children := m.children + [c]))
    decreases depth
  {
    if depth == 0 {
      var r := nodes + [m];
      assert r[..|r| - 1] == nodes && r[|r| - 1] == m;
    } else {
      var last := nodes[|nodes| - 1];
      AppendNested(last.children, depth - 1, m, c);
      AppendNestedStep(nodes, depth, m, c);
    }
  }

  /** The step of AppendNested: below the top level both sides rewrite the
      last node's children. */
  lemma AppendNestedStep(nodes: seq<Node>, depth: nat, m: Node, c: Node)
    requires 0 < depth <= RightDepth(nodes)
    requires var ch := nodes[|nodes| - 1].children;
             AppendAt(AppendAt(ch, depth - 1, m), depth, c) == AppendAt(ch, depth - 1, m.(children := m.children + [c]))
    ensures AppendAt(AppendAt(nodes, depth, m), depth + 1, c) == AppendAt(nodes, depth, m.(children := m.children + [c]))
  {
    var r := AppendAt(nodes, depth, m);
    assert r[..|r| - 1] == nodes[..|nodes| - 1];
  }

  lemma {:induction false} AppendAllNested(nodes: seq<Node>, depth: nat, m: Node, cs: seq<Node>)
    requires depth <= RightDepth(nodes)
    ensures AppendAllAt(AppendAt(nodes, depth, m), depth + 1, cs) == AppendAt(nodes, depth, m.(children := m.children + cs))
    decreases |cs|
  {
    if |cs| == 0 {
      assert m.children + cs == m.children;
    } else {
      var m1 := m.(children := m.children + [cs[0]]);
      AppendHeadThenTail(m.children, cs);
      assert m1.(children := m1.children + cs[1..]) == m.(children := m.children + cs);
      AppendNested(nodes, depth, m, cs[0]);
      AppendAllNested(nodes, depth, m1, cs[1..]);
    }
  }

  lemma AppendHeadThenTail<T>(a: seq<T>, cs: seq<T>)
    requires |cs| > 0
    ensures a + [cs[0]] + cs[1..] == a + cs
  {
    assert cs == [cs[0]] + cs[1..];
  }

  /** The row of one node written at level depth+1 appends it, without its
      children, at that depth and leaves the stack just above it. */
  lemma ImportNodeRow(n: Node, depth: nat, b: Build)
    requires ReadyAt(b, depth)
    ensures ImportRow(b, [IntValue(depth + 1), StrValue(n.title), IntValue(n.page)])
            == Some(Build(AppendAt(b.roots, depth, Node(n.title, n.page, [])), depth + 2))
  {
    var row: Row := [IntValue(depth + 1), StrValue(n.title), IntValue(n.page)];
    assert Truthy(row[0]);
  }

  /** Appending a leaf and then its children below it appends the node. */
  lemma AppendNode(nodes: seq<Node>, depth: nat, n: Node)
    requires depth <= RightDepth(nodes)
    ensures AppendAllAt(AppendAt(nodes, depth, Node(n.title, n.page, [])), depth + 1, n.children) == AppendAt(nodes, depth, n)
  {
    var leaf := Node(n.title, n.page, []);
    AppendAllNested(nodes, depth, leaf, n.children);
    assert leaf.(children := leaf.children + n.children) == n;
  }

  /** The stack height once the rows of a list of nodes written at level
      depth+1 are read: just below the last entry along the last branch. */
  function StackAfter(nodes: seq<Node>, depth: nat, stack: nat): nat {
    if |nodes| == 0 then stack else depth + 1 + RightDepth(nodes)
  }

  /** The reader's state once a list of nodes is appended at a depth. */
  function AfterNodes(b: Build, depth: nat, nodes: seq<Node>): (r: Build)
    requires ReadyAt(b, depth)
    ensures ReadyAt(r, depth)
  {
    AppendAllDepth(b.roots, depth, nodes);
    Build(AppendAllAt(b.roots, depth, nodes), StackAfter(nodes, depth, b.stack))
  }

  lemma {:induction false} AppendAllDepth(nodes: seq<Node>, depth: nat, ns: seq<Node>)
    requires depth <= RightDepth(nodes)
    ensures |ns| == 0 ==> AppendAllAt(nodes, depth, ns) == nodes
    ensures |ns| > 0 ==> RightDepth(AppendAllAt(nodes, depth, ns)) == depth + RightDepth(ns)
    decreases |ns|
  {
    if |ns| > 0 {
      var m := AppendAt(nodes, depth, ns[0]);
      AppendAllDepth(m, depth, ns[1..]);
      if |ns| > 1 {
        assert ns[1..][|ns[1..]| - 1] == ns[|ns| - 1];
      }
    }
  }

  /** The rows of one node: its own, then its children's one level deeper. */
  function NodeRows(n: Node, level: int): (rows: seq<Row>)
    ensures rows == Rows([n], level)
  {
    assert [n][1..] == [];
    [[IntValue(level), StrValue(n.title), IntValue(n.page)]] + Rows(n.children, level + 1)
  }

  /** Reading the rows of a list of nodes written at level depth+1 and then
      any further rows appends those nodes at that depth and goes on with
      the further rows from there. */
  lemma {:induction false} ImportOfRowsThen(nodes: seq<Node>, depth: nat, b: Build, rest: seq<Row>)
    requires ReadyAt(b, depth)
    ensures ImportRows(Rows(nodes, depth + 1) + rest, b) == ImportRows(rest, AfterNodes(b, depth, nodes))
    decreases nodes, 1
  {
    if |nodes| == 0 {
      assert Rows(nodes, depth + 1) + rest == rest;
    } else {
      var n := nodes[0];
      var b2 := AfterNodes(b, depth, [n]);
      var tail := Rows(nodes[1..], depth + 1) + rest;
      AfterNodesCons(b, depth, nodes);
      assert Rows(nodes, depth + 1) + rest == NodeRows(n, depth + 1) + tail;
      ImportOfNodeThen(n, depth, b, tail);
      ImportOfRowsThen(nodes[1..], depth, b2, rest);
    }
  }

  /** Appending a list is appending its first node, then the others. */
  lemma AfterNodesCons(b: Build, depth: nat, nodes: seq<Node>)
    requires ReadyAt(b, depth) && |nodes| > 0
    ensures AfterNodes(AfterNodes(b, depth, [nodes[0]]), depth, nodes[1..]) == AfterNodes(b, depth, nodes)
  {
    var n := nodes[0];
    assert [n][1..] == [];
    assert AppendAllAt(b.roots, depth, [n]) == AppendAt(b.roots, depth, n);
    if |nodes| > 1 {
      assert nodes[1..][|nodes[1..]| - 1] == nodes[|nodes| - 1];
    } else {
      assert nodes == [n];
    }
  }

  /** The rows of one node, then further rows: the node is appended with
      its children, and the further rows are read from there. */
  lemma {:induction false} ImportOfNodeThen(n: Node, depth: nat, b: Build, rest: seq<Row>)
    requires ReadyAt(b, depth)
    ensures ImportRows(NodeRows(n, depth + 1) + rest, b) == ImportRows(rest, AfterNodes(b, depth, [n]))
    decreases n, 0
  {
    var b1 := Build(AppendAt(b.roots, depth, Node(n.title, n.page, [])), depth + 2);
    ImportOfRowsThen(n.children, depth + 1, b1, rest);
    ImportNodeRowThen(n, depth, b, rest);
  }

  /** The row of a node, then further rows: the node is appended as a leaf
      and the further rows are read one level below it. */
  lemma ImportNodeRowThen(n: Node, depth: nat, b: Build, rest: seq<Row>)
    requires ReadyAt(b, depth)
    ensures var b1 := Build(AppendAt(b.roots, depth, Node(n.title, n.page, [])), depth + 2);
            && ImportRows(NodeRows(n, depth + 1) + rest, b) == ImportRows(Rows(n.children, depth + 2) + rest, b1)
            && AfterNodes(b1, depth + 1, n.children) == AfterNodes(b, depth, [n])
  {
    AfterNodeOfLeaf(n, depth, b);
    var row: Row := [IntValue(depth + 1), StrValue(n.title), IntValue(n.page)];
    var xs := Rows(n.children, depth + 2) + rest;
    var all := [row] + xs;
    assert NodeRows(n, depth + 1) + rest == all;
    assert all[0] == row && all[1..] == xs;
    ImportNodeRow(n, depth, b);
  }

  /** Appending a node as a leaf and then its children below it leaves the
      reader where appending the node does. */
  lemma AfterNodeOfLeaf(n: Node, depth: nat, b: Build)
    requires ReadyAt(b, depth)
    ensures var b1 := Build(AppendAt(b.roots, depth, Node(n.title, n.page, [])), depth + 2);
            ReadyAt(b1, depth + 1) && AfterNodes(b1, depth + 1, n.children) == AfterNodes(b, depth, [n])
  {
    AppendNode(b.roots, depth, n);
    assert [n][1..] == [];
    assert AppendAllAt(b.roots, depth, [n]) == AppendAt(b.roots, depth, n);
    assert RightDepth([n]) == 1 + RightDepth(n.children);
  }

  /** Reading back the rows of a list of nodes written at level depth+1
      appends those nodes at that depth. */
  lemma ImportOfRows(nodes: seq<Node>, depth: nat, b: Build)
    requires ReadyAt(b, depth)
    ensures ImportRows(Rows(nodes, depth + 1), b) == Some(AfterNodes(b, depth, nodes))
  {
    ImportOfRowsThen(nodes, depth, b, []);
    assert Rows(nodes, depth + 1) + [] == Rows(nodes, depth + 1);
  }

  lemma {:induction false} AppendAllToEmpty(ns: seq<Node>)
    ensures AppendAllAt([], 0, ns) == ns
  {
    AppendAllFrom([], ns);
  }

  lemma {:induction false} AppendAllFrom(acc: seq<Node>, ns: seq<Node>)
    ensures AppendAllAt(acc, 0, ns) == acc + ns
    decreases |ns|
  {
    if |ns| > 0 {
      AppendAllFrom(acc + [ns[0]], ns[1..]);
      assert acc + [ns[0]] + ns[1..] == acc + ns;
    }
  }

  /** Exporting an outline and importing the sheet gives the outline back. */
  lemma ImportExportRoundTrip(nodes: seq<Node>)
    ensures ImportSheet(ExportSheet(nodes)) == Some(nodes)
  {
    var sheet := ExportSheet(nodes);
    assert sheet[1..] == Rows(nodes, 1);
    ImportOfRows(nodes, 0, Build([], 1));
    AppendAllToEmpty(nodes);
  }

  /** A row with an `int` level of at least 1, a text title and an `int`
      page appends a leaf at that level cut down to the stack height. */
  lemma ImportRowAt(b: Build, level: int, title: string, page: int)
    requires BuildValid(b) && level >= 1
    ensures var top := if level > b.stack then b.stack else level;
            ImportRow(b, [IntValue(level), StrValue(title), IntValue(page)])
            == Some(Build(AppendAt(b.roots, top - 1, Node(title, page, [])), top + 1))
  {
    var row: Row := [IntValue(level), StrValue(title), IntValue(page)];
    assert Truthy(row[0]);
  }

  lemma ImportSkipsRow(b: Build, row: Row)
    requires BuildValid(b) && |row| >= 3
    requires || (LevelOf(row[0]).Some? && LevelOf(row[0]).value < 1)
             || LevelOf(row[0]).None? || row[1] == NoValue || row[2] == NoValue
    ensures ImportRow(b, row) == Some(b)
  {
  }

  // ========================================================= tree editing

  /** A row of the tree view: the title cell and the page cell, as text. */
  datatype ViewNode = ViewNode(title: string, pageText: string, children: seq<ViewNode>)

  /** `populate_tree`: pages shown with `str`. */
  function Populate(nodes: seq<Node>): (v: seq<ViewNode>)
    ensures |v| == |nodes|
    decreases nodes
  {
    if |nodes| == 0 then []
    else [ViewNode(nodes[0].title, IntToString(nodes[0].page), Populate(nodes[0].children))] + Populate(nodes[1..])
  }

  /** `get_tree_data`: a page cell of digits is read as that number, any
      other text as page 1. */
  function TreeData(view: seq<ViewNode>): (nodes: seq<Node>)
    ensures |nodes| == |view|
    decreases view
  {
    if |view| == 0 then []
    else
      var v := view[0];
      [Node(v.title, if IsDigits(v.pageText) then DigitsValue(v.pageText) else 1, TreeData(v.children))] + TreeData(view[1..])
  }

  /** What showing and reading back does to a page: kept when it is not
      negative, 1 otherwise (the minus sign is not a digit). */
  function ReadBack(p: int): int {
    if p >= 0 then p else 1
  }

  lemma IntToStringDigits(p: int)
    ensures IsDigits(IntToString(p)) <==> p >= 0
    ensures p >= 0 ==> DigitsValue(IntToString(p)) == p
  {
    if p < 0 {
      assert IntToString(p)[0] == '-';
    }
  }

  /** Showing an outline and reading it back keeps titles and shape; pages
      become `ReadBack` of themselves. */
  lemma {:induction false} PopulateTreeData(nodes: seq<Node>)
    ensures TreeData(Populate(nodes)) == MapPages(nodes, ReadBack)
    decreases nodes
  {
    if |nodes| > 0 {
      PopulateTreeData(nodes[0].children);
      PopulateTreeData(nodes[1..]);
      IntToStringDigits(nodes[0].page);
      assert Populate(nodes)[1..] == Populate(nodes[1..]);
    }
  }

  /** A map that fixes every page of the tree leaves the tree alone. */
  lemma {:induction false} MapPagesIdentity(nodes: seq<Node>, f: int -> int, keep: int -> bool)
    requires AllPages(nodes, keep) && forall x :: keep(x) ==> f(x) == x
    ensures MapPages(nodes, f) == nodes
    decreases nodes
  {
    if |nodes| > 0 {
      MapPagesIdentity(nodes[0].children, f, keep);
      MapPagesIdentity(nodes[1..], f, keep);
    }
  }

  /** An outline without negative pages survives the tree view unchanged. */
  lemma PopulateTreeDataIdentity(nodes: seq<Node>)
    requires AllPages(nodes, p => p >= 0)
    ensures TreeData(Populate(nodes)) == nodes
  {
    PopulateTreeData(nodes);
    MapPagesIdentity(nodes, ReadBack, p => p >= 0);
  }

  // ------------------------------------------------------------ page offset

  /** The page a shifted page cell shows: `max(1, p + offset)`. */
  function Shift(p: int, offset: int): int {
    if p + offset < 1 then 1 else p + offset
  }

  /** Shift every page cell that `int` reads; leave the others alone. */
  function OffsetView(view: seq<ViewNode>, offset: int): (r: seq<ViewNode>)
    ensures |r| == |view|
    decreases view
  {
    if |view| == 0 then []
    else
      var v := view[0];
      var text := match ParseInt(v.pageText)
                  case Some(p) => IntToString(Shift(p, offset))
                  case None => v.pageText;
      [ViewNode(v.title, text, OffsetView(v.children, offset))] + OffsetView(view[1..], offset)
  }

  /**
    `_apply_page_offset`: nothing happens for an empty offset field, one
    `int` rejects, or 0; otherwise every page cell at every depth is
    shifted.
  */
  function ApplyPageOffset(view: seq<ViewNode>, offsetText: string): (r: seq<ViewNode>)
    ensures offsetText == "" || ParseInt(offsetText).None? || ParseInt(offsetText) == Some(0) ==> r == view
  {
    if offsetText == "" then view
    else
      match ParseInt(offsetText)
      case None => view
      case Some(offset) => if offset == 0 then view else OffsetView(view, offset)
  }

  /** Shifting a shown outline and reading it back maps every page p to
      max(1, p + offset), at every depth. */
  lemma {:induction false} OffsetReadBack(nodes: seq<Node>, offset: int)
    ensures TreeData(OffsetView(Populate(nodes), offset)) == MapPages(nodes, p => Shift(p, offset))
    decreases nodes
  {
    if |nodes| > 0 {
      var n := nodes[0];
      ParseIntOfIntToString(n.page);
      IntToStringDigits(Shift(n.page, offset));
      OffsetReadBack(n.children, offset);
      OffsetReadBack(nodes[1..], offset);
      assert Populate(nodes)[1..] == Populate(nodes[1..]);
      assert OffsetView(Populate(nodes), offset)[1..] == OffsetView(Populate(nodes[1..]), offset);
    }
  }

  lemma {:induction false} MapPagesCompose(nodes: seq<Node>, f: int -> int, g: int -> int, h: int -> int)
    requires forall x :: h(x) == g(f(x))
    ensures MapPages(MapPages(nodes, f), g) == MapPages(nodes, h)
    decreases nodes
  {
    if |nodes| > 0 {
      MapPagesCompose(nodes[0].children, f, g, h);
      MapPagesCompose(nodes[1..], f, g, h);
    }
  }

  /** A shift is undone by the opposite shift when no page was pushed
      against page 1. */
  lemma OffsetUndo(nodes: seq<Node>, offset: int)
    requires AllPages(nodes, p => p >= 1 && p + offset >= 1)
    ensures MapPages(MapPages(nodes, p => Shift(p, offset)), p => Shift(p, -offset)) == nodes
  {
    var f := p => Shift(p, offset);
    var g := p => Shift(p, -offset);
    var h := p => g(f(p));
    MapPagesCompose(nodes, f, g, h);
    MapPagesIdentity(nodes, h, p => p >= 1 && p + offset >= 1);
  }

  // ------------------------------------------------------------ cell edits

  /** `_on_model_changed` on a page cell: text that is not all digits, or
      is below 1, is put back to "1". */
  function ValidatePageText(text: string): (r: string)
    ensures IsDigits(r) && DigitsValue(r) >= 1
    ensures r == text <==> IsDigits(text) && DigitsValue(text) >= 1
  {
    if !IsDigits(text) || DigitsValue(text) < 1 then "1" else text
  }

  /** A validated page cell reads back as the page it shows. */
  lemma ValidatedPageReadsBack(title: string, text: string)
    ensures TreeData([ViewNode(title, ValidatePageText(text), [])])[0].page == DigitsValue(ValidatePageText(text)) >= 1
    ensures ValidatePageText(ValidatePageText(text)) == ValidatePageText(text)
  {
  }

  // ------------------------------------------------------------- new items

  /** The editor's counter for default titles and the page new entries get. */
  datatype Editor = Editor(view: seq<ViewNode>, counter: nat, newItemPage: int)

  /** The default title of the n-th new entry. */
  const NewItemPrefix: string := "新提纲 "

  function NewItemTitle(counter: nat): (t: string)
    ensures |t| > |NewItemPrefix| && t[..|NewItemPrefix|] == NewItemPrefix
    ensures t[|NewItemPrefix|..] == NatToString(counter)
  {
    NewItemPrefix + NatToString(counter)
  }

  /** `populate_tree`: a new tree and the counter back at 1. */
  function PopulateEditor(e: Editor, nodes: seq<Node>): (r: Editor)
    ensures r.view == Populate(nodes) && r.counter == 1 && r.newItemPage == e.newItemPage
  {
    Editor(Populate(nodes), 1, e.newItemPage)
  }

  /**
    `_add_item` on a list of sibling rows: a row titled from the counter,
    with the current page, appended (row -1) or inserted at `row`. The
    counter moves on even when the row index is out of the list's range
    and the view does not take the row.
  */
  function AddItem(siblings: seq<ViewNode>, row: int, counter: nat, newItemPage: int): (r: (seq<ViewNode>, nat))
    ensures r.1 == counter + 1
    ensures row == -1 || 0 <= row <= |siblings| ==>
              |r.0| == |siblings| + 1
              && var at := if row == -1 then |siblings| else row;
                 && r.0[at] == ViewNode(NewItemTitle(counter), IntToString(newItemPage), [])
                 && r.0[..at] == siblings[..at] && r.0[at + 1..] == siblings[at..]
    ensures !(row == -1 || 0 <= row <= |siblings|) ==> r.0 == siblings
  {
    var item := ViewNode(NewItemTitle(counter), IntToString(newItemPage), []);
    if row == -1 then (siblings + [item], counter + 1)
    else if 0 <= row <= |siblings| then (siblings[..row] + [item] + siblings[row..], counter + 1)
    else (siblings, counter + 1)
  }

  /** Entries added between two populates get different titles. */
  lemma NewItemTitlesDistinct(a: nat, b: nat)
    requires a != b
    ensures NewItemTitle(a) != NewItemTitle(b)
  {
  }

  // ================================================================= HTML

  /** The two exporters' link styles: a page URL prefix, or a `data-page`
      attribute. */
  datatype LinkStyle = PrefixLink(prefix: string) | DataPage

  /** The pieces of the nested list. */
  datatype Tag = ListOpen | ItemOpen(page: int, title: string) | ItemClose | ListClose

  /** One `<ul>` per non-empty list, one `<li>` per node, children inside
      their parent's `<li>`. */
  function Tags(nodes: seq<Node>): seq<Tag>
    decreases nodes, 1
  {
    if |nodes| == 0 then [] else [ListOpen] + ItemTags(nodes) + [ListClose]
  }

  function ItemTags(nodes: seq<Node>): seq<Tag>
    decreases nodes, 0
  {
    if |nodes| == 0 then []
    else [ItemOpen(nodes[0].page, nodes[0].title)] + Tags(nodes[0].children) + [ItemClose] + ItemTags(nodes[1..])
  }

  function TagText(t: Tag, style: LinkStyle): string {
    match t
    case ListOpen => "<ul>"
    case ListClose => "</ul>"
    case ItemClose => "</li>"
    case ItemOpen(page, title) =>
      match style
      case PrefixLink(prefix) => "<li><a href='" + prefix + IntToString(page) + "'>" + title + "</a>"
      case DataPage => "<li><a href='#' data-page='" + IntToString(page) + "'>" + title + "</a>"
  }

  function TagsText(ts: seq<Tag>, style: LinkStyle): string
    decreases |ts|
  {
    if |ts| == 0 then "" else TagText(ts[0], style) + TagsText(ts[1..], style)
  }

  /** `_generate_outline_html`, as the code builds it. */
  function OutlineHtml(nodes: seq<Node>, prefix: string): (html: string)
    ensures |nodes| == 0 ==> html == ""
    decreases nodes, 1
  {
    if |nodes| == 0 then "" else "<ul>" + ItemsHtml(nodes, prefix) + "</ul>"
  }

  function ItemsHtml(nodes: seq<Node>, prefix: string): string
    decreases nodes, 0
  {
    if |nodes| == 0 then ""
    else
      var n := nodes[0];
      "<li><a href='" + prefix + IntToString(n.page) + "'>" + n.title + "</a>"
      + (if |n.children| > 0 then OutlineHtml(n.children, prefix) else "")
      + "</li>" + ItemsHtml(nodes[1..], prefix)
  }

  /** `_generate_recursive_outline_for_flipbook`, as the code builds it. */
  function FlipbookOutline(nodes: seq<Node>): (html: string)
    ensures |nodes| == 0 ==> html == ""
    decreases nodes, 1
  {
    if |nodes| == 0 then "" else "<ul>" + FlipbookItems(nodes) + "</ul>"
  }

  function FlipbookItems(nodes: seq<Node>): string
    decreases nodes, 0
  {
    if |nodes| == 0 then ""
    else
      var n := nodes[0];
      "<li><a href='#' data-page='" + IntToString(n.page) + "'>" + n.title + "</a>"
      + (if |n.children| > 0 then FlipbookOutline(n.children) else "")
      + "</li>" + FlipbookItems(nodes[1..])
  }

  lemma {:induction false} TagsTextAppend(a: seq<Tag>, b: seq<Tag>, style: LinkStyle)
    ensures TagsText(a + b, style) == TagsText(a, style) + TagsText(b, style)
    decreases |a|
  {
    if |a| > 0 {
      var t := TagText(a[0], style);
      assert (a + b)[0] == a[0] && (a + b)[1..] == a[1..] + b;
      assert TagsText(a + b, style) == t + TagsText(a[1..] + b, style);
      TagsTextAppend(a[1..], b, style);
      assert TagsText(a, style) == t + TagsText(a[1..], style);
    } else {
      assert a + b == b;
    }
  }

  /** The text of a list's tags: its items inside `<ul>` and `</ul>`. */
  lemma TagsTextOfList(nodes: seq<Node>, style: LinkStyle)
    requires |nodes| > 0
    ensures TagsText(Tags(nodes), style) == "<ul>" + TagsText(ItemTags(nodes), style) + "</ul>"
  {
    TagsTextAppend([ListOpen] + ItemTags(nodes), [ListClose], style);
    TagsTextAppend([ListOpen], ItemTags(nodes), style);
  }

  /** The text of a list's items: the first one's link, its children, its
      `</li>`, then the others. */
  lemma TagsTextOfItems(nodes: seq<Node>, style: LinkStyle)
    requires |nodes| > 0
    ensures TagsText(ItemTags(nodes), style)
            == TagText(ItemOpen(nodes[0].page, nodes[0].title), style) + TagsText(Tags(nodes[0].children), style)
               + "</li>" + TagsText(ItemTags(nodes[1..]), style)
  {
    var open := [ItemOpen(nodes[0].page, nodes[0].title)];
    TagsTextAppend(open + Tags(nodes[0].children) + [ItemClose], ItemTags(nodes[1..]), style);
    TagsTextAppend(open + Tags(nodes[0].children), [ItemClose], style);
    TagsTextAppend(open, Tags(nodes[0].children), style);
  }

  /** The page exporter writes exactly the text of the tag sequence. */
  lemma {:induction false} OutlineHtmlIsTags(nodes: seq<Node>, prefix: string)
    ensures OutlineHtml(nodes, prefix) == TagsText(Tags(nodes), PrefixLink(prefix))
    ensures ItemsHtml(nodes, prefix) == TagsText(ItemTags(nodes), PrefixLink(prefix))
    decreases nodes
  {
    if |nodes| > 0 {
      OutlineHtmlIsTags(nodes[0].children, prefix);
      OutlineHtmlIsTags(nodes[1..], prefix);
      TagsTextOfItems(nodes, PrefixLink(prefix));
      TagsTextOfList(nodes, PrefixLink(prefix));
    }
  }

  /** The flipbook exporter writes exactly the text of the tag sequence. */
  lemma {:induction false} FlipbookHtmlIsTags(nodes: seq<Node>)
    ensures FlipbookOutline(nodes) == TagsText(Tags(nodes), DataPage)
    ensures FlipbookItems(nodes) == TagsText(ItemTags(nodes), DataPage)
    decreases nodes
  {
    if |nodes| > 0 {
      FlipbookHtmlIsTags(nodes[0].children);
      FlipbookHtmlIsTags(nodes[1..]);
      TagsTextOfItems(nodes, DataPage);
      TagsTextOfList(nodes, DataPage);
    }
  }

  // -------------------------------------------------------- reading back

  /** Read a list of items up to the closing `</ul>`; `None` when the tags
      are not a well-formed list. */
  function ParseList(ts: seq<Tag>): (r: Option<(seq<Node>, seq<Tag>)>)
    ensures r.Some? ==> |r.value.1| < |ts|
    decreases |ts|, 1
  {
    if |ts| > 0 && ts[0] == ListOpen then
      match ParseItems(ts[1..])
      case Some((items, rest)) =>
        if |items| > 0 && |rest| > 0 && rest[0] == ListClose then Some((items, rest[1..])) else None
      case None => None
    else None
  }

  /** Read items while the next tag opens one. */
  function ParseItems(ts: seq<Tag>): (r: Option<(seq<Node>, seq<Tag>)>)
    ensures r.Some? ==> |r.value.1| <= |ts|
    decreases |ts|, 0
  {
    if |ts| > 0 && ts[0].ItemOpen? then
      match ParseChildren(ts[1..])
      case Some((kids, rest)) =>
        if |rest| > 0 && rest[0] == ItemClose then
          match ParseItems(rest[1..])
          case Some((more, rest2)) => Some(([Node(ts[0].title, ts[0].page, kids)] + more, rest2))
          case None => None
        else None
      case None => None
    else Some(([], ts))
  }

  /** The children of an item: a nested list when one opens, else none. */
  function ParseChildren(ts: seq<Tag>): (r: Option<(seq<Node>, seq<Tag>)>)
    ensures r.Some? ==> |r.value.1| <= |ts|
    decreases |ts|, 2
  {
    if |ts| > 0 && ts[0] == ListOpen then ParseList(ts) else Some(([], ts))
  }

  /** The written list can be read back into the outline: the nesting of
      `<ul>` and `<li>` follows the tree exactly. */
  lemma {:induction false} TagsRoundTrip(nodes: seq<Node>, rest: seq<Tag>)
    requires |nodes| > 0
    requires |rest| == 0 || !rest[0].ItemOpen?
    ensures ParseList(Tags(nodes) + rest) == Some((nodes, rest))
    decreases nodes, 1
  {
    var ts := Tags(nodes) + rest;
    assert ts == [ListOpen] + (ItemTags(nodes) + ([ListClose] + rest));
    ItemsRoundTrip(nodes, [ListClose] + rest);
    assert ts[1..] == ItemTags(nodes) + ([ListClose] + rest);
    assert ([ListClose] + rest)[1..] == rest;
  }

  lemma {:induction false} ChildrenRoundTrip(nodes: seq<Node>, rest: seq<Tag>)
    requires |rest| > 0 && rest[0] == ItemClose
    ensures ParseChildren(Tags(nodes) + rest) == Some((nodes, rest))
    decreases nodes, 2
  {
    if |nodes| > 0 {
      TagsRoundTrip(nodes, rest);
    } else {
      assert Tags(nodes) + rest == rest;
    }
  }

  lemma {:induction false} ItemsRoundTrip(nodes: seq<Node>, rest: seq<Tag>)
    requires |rest| == 0 || !rest[0].ItemOpen?
    ensures ParseItems(ItemTags(nodes) + rest) == Some((nodes, rest))
    decreases nodes, 0
  {
    if |nodes| > 0 {
      var n := nodes[0];
      var tail := [ItemClose] + (ItemTags(nodes[1..]) + rest);
      ItemsRoundTrip(nodes[1..], rest);
      ChildrenRoundTrip(n.children, tail);
      ItemsRoundTripStep(nodes, rest);
    } else {
      assert ItemTags(nodes) + rest == rest;
    }
  }

  /** The step of ItemsRoundTrip: the first item, its children, the others. */
  lemma ItemsRoundTripStep(nodes: seq<Node>, rest: seq<Tag>)
    requires |nodes| > 0
    requires ParseItems(ItemTags(nodes[1..]) + rest) == Some((nodes[1..], rest))
    requires var tail := [ItemClose] + (ItemTags(nodes[1..]) + rest);
             ParseChildren(Tags(nodes[0].children) + tail) == Some((nodes[0].children, tail))
    ensures ParseItems(ItemTags(nodes) + rest) == Some((nodes, rest))
  {
    var n := nodes[0];
    var tail := [ItemClose] + (ItemTags(nodes[1..]) + rest);
    ItemTagsCons(nodes, rest);
    assert nodes == [Node(n.title, n.page, n.children)] + nodes[1..];
  }

  /** The tags of a non-empty list of items, then further tags: the first
      item's opening tag, its children's tags, its closing tag, the rest. */
  lemma ItemTagsCons(nodes: seq<Node>, rest: seq<Tag>)
    requires |nodes| > 0
    ensures var tail := [ItemClose] + (ItemTags(nodes[1..]) + rest);
            var ts := ItemTags(nodes) + rest;
            && ts[0] == ItemOpen(nodes[0].page, nodes[0].title)
            && ts[1..] == Tags(nodes[0].children) + tail
            && tail[0] == ItemClose && tail[1..] == ItemTags(nodes[1..]) + rest
  {
    var n := nodes[0];
    var open, kids, more := [ItemOpen(n.page, n.title)], Tags(n.children), ItemTags(nodes[1..]);
    assert ItemTags(nodes) == open + kids + [ItemClose] + more;
    Regroup(open, kids, [ItemClose], more, rest);
    ConsParts(ItemOpen(n.page, n.title), kids + ([ItemClose] + (more + rest)));
    ConsParts(ItemClose, more + rest);
  }

  lemma Regroup<T>(a: seq<T>, b: seq<T>, c: seq<T>, d: seq<T>, e: seq<T>)
    ensures a + b + c + d + e == a + (b + (c + (d + e)))
  {
  }

  lemma ConsParts<T>(x: T, xs: seq<T>)
    ensures ([x] + xs)[0] == x && ([x] + xs)[1..] == xs
  {
  }

  /** How deep the lists nest. */
  function Depth(nodes: seq<Node>): nat
    decreases nodes
  {
    if |nodes| == 0 then 0
    else
      var here := 1 + Depth(nodes[0].children);
      var others := Depth(nodes[1..]);
      if here >= others then here else others
  }

  /** The deepest `<ul>` nesting reached while reading the tags, starting
      at nesting `open` with `best` reached so far. */
  function MaxNesting(ts: seq<Tag>, open: int, best: int): int
    decreases |ts|
  {
    if |ts| == 0 then best
    else
      var open' := match ts[0] case ListOpen => open + 1 case ListClose => open - 1 case _ => open;
      MaxNesting(ts[1..], open', Max(best, open'))
  }

  function Max(a: int, b: int): int {
    if a >= b then a else b
  }

  /** Reading a list's tags returns to the nesting it started at, having
      gone `Depth` deeper. */
  lemma {:induction false} TagsNesting(nodes: seq<Node>, rest: seq<Tag>, open: int, best: int)
    requires best >= open
    ensures MaxNesting(Tags(nodes) + rest, open, best) == MaxNesting(rest, open, Max(best, open + Depth(nodes)))
    decreases nodes, 1
  {
    if |nodes| > 0 {
      ItemsNesting(nodes, [ListClose] + rest, open + 1, Max(best, open + 1));
      TagsNestingStep(nodes, rest, open, best);
    } else {
      assert Tags(nodes) + rest == rest;
    }
  }

  /** The step of TagsNesting: `<ul>`, the items one level deeper, `</ul>`. */
  lemma TagsNestingStep(nodes: seq<Node>, rest: seq<Tag>, open: int, best: int)
    requires |nodes| > 0 && best >= open
    requires var b1 := Max(best, open + 1);
             MaxNesting(ItemTags(nodes) + ([ListClose] + rest), open + 1, b1)
             == MaxNesting([ListClose] + rest, open + 1, Max(b1, open + 1 + ItemsDepth(nodes)))
    ensures MaxNesting(Tags(nodes) + rest, open, best) == MaxNesting(rest, open, Max(best, open + Depth(nodes)))
  {
    var ts := Tags(nodes) + rest;
    assert ts == [ListOpen] + (ItemTags(nodes) + ([ListClose] + rest));
    assert ts[1..] == ItemTags(nodes) + ([ListClose] + rest);
    var b1 := Max(best, open + 1);
    assert MaxNesting(ts, open, best) == MaxNesting(ts[1..], open + 1, b1);
    var b2 := Max(b1, open + 1 + ItemsDepth(nodes));
    assert ([ListClose] + rest)[1..] == rest;
    assert MaxNesting([ListClose] + rest, open + 1, b2) == MaxNesting(rest, open, b2);
    DepthIsItemsDepth(nodes);
  }

  /** The nesting the children of a list add below it. */
  function ItemsDepth(nodes: seq<Node>): nat
    decreases nodes
  {
    if |nodes| == 0 then 0 else Max(Depth(nodes[0].children), ItemsDepth(nodes[1..]))
  }

  lemma {:induction false} DepthIsItemsDepth(nodes: seq<Node>)
    requires |nodes| > 0
    ensures Depth(nodes) == 1 + ItemsDepth(nodes)
    decreases nodes
  {
    if |nodes| > 1 {
      DepthIsItemsDepth(nodes[1..]);
    }
  }

  lemma {:induction false} ItemsNesting(nodes: seq<Node>, rest: seq<Tag>, open: int, best: int)
    requires best >= open
    ensures MaxNesting(ItemTags(nodes) + rest, open, best) == MaxNesting(rest, open, Max(best, open + ItemsDepth(nodes)))
    decreases nodes, 0
  {
    if |nodes| > 0 {
      var n := nodes[0];
      var tail := [ItemClose] + (ItemTags(nodes[1..]) + rest);
      TagsNesting(n.children, tail, open, best);
      ItemsNesting(nodes[1..], rest, open, Max(best, open + Depth(n.children)));
      ItemsNestingStep(nodes, rest, open, best);
    } else {
      assert ItemTags(nodes) + rest == rest;
    }
  }

  /** The step of ItemsNesting: the first item's tags, then the others'. */
  lemma ItemsNestingStep(nodes: seq<Node>, rest: seq<Tag>, open: int, best: int)
    requires |nodes| > 0 && best >= open
    requires var tail := [ItemClose] + (ItemTags(nodes[1..]) + rest);
             MaxNesting(Tags(nodes[0].children) + tail, open, best)
             == MaxNesting(tail, open, Max(best, open + Depth(nodes[0].children)))
    requires var b1 := Max(best, open + Depth(nodes[0].children));
             MaxNesting(ItemTags(nodes[1..]) + rest, open, b1)
             == MaxNesting(rest, open, Max(b1, open + ItemsDepth(nodes[1..])))
    ensures MaxNesting(ItemTags(nodes) + rest, open, best) == MaxNesting(rest, open, Max(best, open + ItemsDepth(nodes)))
  {
    var n := nodes[0];
    var ts := ItemTags(nodes) + rest;
    var tail := [ItemClose] + (ItemTags(nodes[1..]) + rest);
    ItemTagsCons(nodes, rest);
    assert MaxNesting(ts, open, best) == MaxNesting(ts[1..], open, best);
    var b1 := Max(best, open + Depth(n.children));
    assert tail[1..] == ItemTags(nodes[1..]) + rest;
    assert MaxNesting(tail, open, b1) == MaxNesting(tail[1..], open, b1);
  }

  /** The exported list nests exactly as deep as the outline. */
  lemma HtmlNestingIsDepth(nodes: seq<Node>)
    ensures MaxNesting(Tags(nodes), 0, 0) == Depth(nodes)
  {
    TagsNesting(nodes, [], 0, 0);
    assert Tags(nodes) + [] == Tags(nodes);
  }
}
