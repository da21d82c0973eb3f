/**
  The table-of-contents extractor's text half: the page range the user
  types, the parsing of one contents line into a title and a page number,
  the two tree-building strategies (by chapter keywords, by indentation)
  and the pass that gives a page-less entry its first child's page. The
  PDF text extraction that produces the lines is not part of this model.
*/
module Toc {
  import opened Options
  import opened Text

  // ------------------------------------------------------------ page range

  /** A strictly increasing list. */
  predicate Increasing(xs: seq<int>) {
    forall i, j :: 0 <= i < j < |xs| ==> xs[i] < xs[j]
  }

  function Elems(xs: seq<int>): set<int> {
    set x | x in xs
  }

  /** Insert into a strictly increasing list, keeping it so; a value already
      present is not added again. */
  function Insert(xs: seq<int>, x: int): (r: seq<int>)
    requires Increasing(xs)
    ensures Increasing(r) && Elems(r) == Elems(xs) + {x}
    ensures |xs| > 0 ==> |r| > 0 && (r[0] == xs[0] || r[0] == x)
    decreases |xs|
  {
    if |xs| == 0 then [x]
    else if x < xs[0] then
      InsertFront(xs, x);
      [x] + xs
    else if x == xs[0] then xs
    else
      var rest := Insert(xs[1..], x);
      InsertLater(xs, x, rest);
      [xs[0]] + rest
  }

  lemma ElemsCons(a: int, xs: seq<int>)
    ensures Elems([a] + xs) == {a} + Elems(xs)
  {
    assert forall y :: y in [a] + xs <==> y == a || y in xs;
  }

  lemma IncreasingCons(a: int, xs: seq<int>)
    requires Increasing(xs) && forall y :: y in Elems(xs) ==> a < y
    ensures Increasing([a] + xs)
  {
    var r := [a] + xs;
    forall i, j | 0 <= i < j < |r| ensures r[i] < r[j] {
      assert r[j] == xs[j - 1] && r[j] in Elems(xs);
      if i > 0 {
        assert r[i] == xs[i - 1];
      }
    }
  }

  lemma InsertFront(xs: seq<int>, x: int)
    requires Increasing(xs) && |xs| > 0 && x < xs[0]
    ensures Increasing([x] + xs) && Elems([x] + xs) == Elems(xs) + {x}
  {
    forall y | y in Elems(xs) ensures x < y {
      var k :| 0 <= k < |xs| && xs[k] == y;
      assert k == 0 || xs[0] < xs[k];
    }
    IncreasingCons(x, xs);
    ElemsCons(x, xs);
  }

  lemma InsertLater(xs: seq<int>, x: int, rest: seq<int>)
    requires Increasing(xs) && |xs| > 0 && xs[0] < x
    requires Increasing(rest) && Elems(rest) == Elems(xs[1..]) + {x}
    ensures Increasing([xs[0]] + rest) && Elems([xs[0]] + rest) == Elems(xs) + {x}
  {
    forall y | y in Elems(rest) ensures xs[0] < y {
      if y != x {
        var k :| 0 <= k < |xs[1..]| && xs[1..][k] == y;
        assert xs[k + 1] == y;
      }
    }
    IncreasingCons(xs[0], rest);
    ElemsCons(xs[0], rest);
    ElemsCons(xs[0], xs[1..]);
    assert [xs[0]] + xs[1..] == xs;
  }

  /** Insert every non-negative value of `ys`. */
  function InsertAll(xs: seq<int>, ys: seq<int>): (r: seq<int>)
    requires Increasing(xs)
    ensures Increasing(r) && Elems(r) == Elems(xs) + (set y | y in ys && y >= 0)
    decreases |ys|
  {
    if |ys| == 0 then xs
    else
      var r := InsertAll(if ys[0] >= 0 then Insert(xs, ys[0]) else xs, ys[1..]);
      assert (set y | y in ys && y >= 0) == (if ys[0] >= 0 then {ys[0]} else {}) + (set y | y in ys[1..] && y >= 0);
      r
  }

  /** `range(lo, hi)`. */
  function Range(lo: int, hi: int): (r: seq<int>)
    ensures |r| == if lo < hi then hi - lo else 0
    ensures forall i :: 0 <= i < |r| ==> r[i] == lo + i
  {
    if lo < hi then seq(hi - lo, i requires 0 <= i < hi - lo => lo + i) else []
  }

  /** The ends of a range part `a-b`, when it is one: exactly two pieces
      around the dash, both integers. */
  function RangeEnds(part: string): Option<(int, int)>
  {
    var ends := SplitOn(part, '-');
    if |ends| == 2 && ParseInt(ends[0]).Some? && ParseInt(ends[1]).Some? then
      Some((ParseInt(ends[0]).value, ParseInt(ends[1]).value))
    else None
  }

  /** The zero-based pages one comma-separated part lists, in the order the
      code lists them. */
  function PartPages(part: string): (r: seq<int>)
  {
    if '-' in part then
      match RangeEnds(part)
      case Some((a, b)) => if a <= b then Range(a - 1, b) else []
      case None => []
    else
      match ParseInt(part)
      case Some(n) => [n - 1]
      case None => []
  }

  /** Whether a part names zero-based page `p`: `a-b` names `a-1` up to
      `b-1`, a number `n` names `n-1`, and anything unreadable (including a
      reversed range) names nothing. */
  predicate Names(part: string, p: int) {
    if '-' in part then
      RangeEnds(part).Some? && RangeEnds(part).value.0 - 1 <= p < RangeEnds(part).value.1
    else ParseInt(part) == Some(p + 1)
  }

  lemma PartPagesNames(part: string, p: int)
    ensures p in PartPages(part) <==> Names(part, p)
  {
    if '-' in part && RangeEnds(part).Some? {
      var (a, b) := RangeEnds(part).value;
      if a - 1 <= p < b {
        assert PartPages(part)[p - (a - 1)] == p;
      }
    }
  }

  /** All text with the spaces (only the ` ` character) taken out. */
  function RemoveSpaces(s: string): (r: string)
    ensures ' ' !in r
    ensures forall c :: c in r <==> c in s && c != ' '
  {
    if |s| == 0 then ""
    else (if s[0] == ' ' then "" else [s[0]]) + RemoveSpaces(s[1..])
  }

  /** Pages named by a list of parts, empty parts skipped. */
  function PartsPages(xs: seq<int>, parts: seq<string>): (r: seq<int>)
    requires Increasing(xs)
    ensures Increasing(r)
    decreases |parts|
  {
    if |parts| == 0 then xs
    else PartsPages(if parts[0] == "" then xs else InsertAll(xs, PartPages(parts[0])), parts[1..])
  }

  /** Some non-empty part names `p`. */
  predicate NamedBy(parts: seq<string>, p: int) {
    exists k :: 0 <= k < |parts| && parts[k] != "" && Names(parts[k], p)
  }

  lemma {:induction false} PartsPagesElems(xs: seq<int>, parts: seq<string>, p: int)
    requires Increasing(xs)
    ensures p in PartsPages(xs, parts) <==> p in xs || (p >= 0 && NamedBy(parts, p))
    decreases |parts|
  {
    if |parts| > 0 {
      var ys := if parts[0] == "" then xs else InsertAll(xs, PartPages(parts[0]));
      PartsPagesElems(ys, parts[1..], p);
      PartPagesNames(parts[0], p);
      assert p in ys <==> p in Elems(ys);
      assert p in xs <==> p in Elems(xs);
      if NamedBy(parts, p) {
        var k :| 0 <= k < |parts| && parts[k] != "" && Names(parts[k], p);
        if k > 0 {
          assert parts[1..][k - 1] == parts[k];
        }
      }
      if NamedBy(parts[1..], p) {
        var k :| 0 <= k < |parts[1..]| && parts[1..][k] != "" && Names(parts[1..][k], p);
        assert parts[k + 1] == parts[1..][k];
      }
    }
  }

  /**
    `_parse_page_range`: the pages named by the comma-separated parts of the
    text (spaces ignored), zero-based, without repeats, non-negative, in
    increasing order.
  */
  function ParsePageRange(text: string): (r: seq<int>)
    ensures Increasing(r)
    ensures forall i :: 0 <= i < |r| ==> r[i] >= 0
    ensures forall p :: p in r <==> p >= 0 && NamedBy(SplitOn(RemoveSpaces(text), ','), p)
  {
    var parts := SplitOn(RemoveSpaces(text), ',');
    var r := PartsPages([], parts);
    forall p ensures p in r <==> p >= 0 && NamedBy(parts, p) {
      PartsPagesElems([], parts, p);
    }
    forall i | 0 <= i < |r| ensures r[i] >= 0 {
      PartsPagesElems([], parts, r[i]);
    }
    r
  }

  /** The tool's first check: the page range, stripped, must name at least
      one page, or the tool stops with an input error (`None`). */
  function PagesToProcess(text: string): (r: Option<seq<int>>)
    ensures r.Some? ==> |r.value| > 0 && r.value == ParsePageRange(Strip(text))
    ensures r.None? <==> ParsePageRange(Strip(text)) == []
  {
    var pages := ParsePageRange(Strip(text));
    if pages == [] then None else Some(pages)
  }

  // ----------------------------------------------------------- one line

  /**
    `_parse_line`: when the stripped line has more than one word and its
    last word is all digits, that number is the page and the other words,
    joined by single spaces, the title; otherwise there is no page and the
    stripped line is the title.
  */
  function ParseLine(line: string): (r: (string, Option<nat>))
    ensures r.1.None? ==> r.0 == Strip(line)
    ensures r.1.Some? ==>
              var parts := SplitWs(Strip(line));
              |parts| > 1 && IsDigits(parts[|parts| - 1]) && r.1.value == DigitsValue(parts[|parts| - 1])
  {
    var t := Strip(line);
    var parts := SplitWs(t);
    if |parts| > 1 && IsDigits(parts[|parts| - 1]) then
      (Strip(Join(parts[..|parts| - 1], " ")), Some(DigitsValue(parts[|parts| - 1])))
    else (t, None)
  }

  lemma {:induction false} JoinAppend(words: seq<string>, w: string)
    requires |words| > 0
    ensures Join(words + [w], " ") == Join(words, " ") + " " + w
    decreases |words|
  {
    if |words| > 1 {
      JoinAppend(words[1..], w);
      assert (words + [w])[1..] == words[1..] + [w];
    }
  }

  lemma DigitsAreWord(d: string)
    requires IsDigits(d)
    ensures IsWord(d)
  {
  }

  /** A title of words followed by a page number reads back as that title
      and page. */
  lemma ParseLineRoundTrip(words: seq<string>, n: nat)
    requires |words| > 0 && forall i :: 0 <= i < |words| ==> IsWord(words[i])
    ensures ParseLine(Join(words, " ") + " " + NatToString(n)) == (Join(words, " "), Some(n))
  {
    var d := NatToString(n);
    DigitsAreWord(d);
    var all := words + [d];
    assert forall i :: 0 <= i < |all| ==> IsWord(all[i]);
    JoinAppend(words, d);
    var s := Join(all, " ");
    JoinStartsWithWord(all);
    StripNoSpaceEnds(s);
    SplitWsOfJoin(all);
    assert all[..|all| - 1] == words;
    JoinStartsWithWord(words);
    StripNoSpaceEnds(Join(words, " "));
  }

  /** A single word line has no page, whatever it is. */
  lemma ParseLineOneWord(w: string)
    requires IsWord(w)
    ensures ParseLine(w) == (w, None)
  {
    StripNoSpaceEnds(w);
    FirstSpaceOfWord(w);
  }

  // ------------------------------------------------------------ keywords

  predicate IsLessonChar(c: char) {
    c == '单' || c == '元' || c == '章' || c == '课'
  }

  /** Some lesson character in `s` comes before the first line break. */
  predicate LessonCharBeforeBreak(s: string) {
    exists j :: 0 <= j < |s| && IsLessonChar(s[j]) && '\n' !in s[..j]
  }

  /** `re.match(r'^\s*(Unit|Module|第.*[单元章课])', title, re.IGNORECASE)`,
      with case ignored for ASCII letters. */
  predicate IsChapterTitle(title: string) {
    var k := SkipSpaces(title, 0);
    var t := title[k..];
    || (|t| >= 4 && AsciiLower(t[..4]) == "unit")
    || (|t| >= 6 && AsciiLower(t[..6]) == "module")
    || (|t| >= 1 && t[0] == '第' && LessonCharBeforeBreak(t[1..]))
  }

  datatype TocLine = TocLine(text: string, x: real, y: real)

  datatype TocNode = TocNode(title: string, page: Option<nat>, children: seq<TocNode>)

  function Leaf(title: string, page: Option<nat>): TocNode {
    TocNode(title, page, [])
  }

  /** Roots and their children only. */
  predicate TwoLevels(ns: seq<TocNode>) {
    forall i :: 0 <= i < |ns| ==> forall j :: 0 <= j < |ns[i].children| ==> ns[i].children[j].children == []
  }

  /** Add a leaf as the last child of the last root. */
  function AppendChild(roots: seq<TocNode>, c: TocNode): (r: seq<TocNode>)
    requires |roots| > 0
  {
    var last := roots[|roots| - 1];
    roots[|roots| - 1 := last.(children := last.children + [c])]
  }

  lemma AppendChildKeeps(roots: seq<TocNode>, c: TocNode)
    requires |roots| > 0 && c.children == []
    ensures |AppendChild(roots, c)| == |roots|
    ensures forall i :: 0 <= i < |roots| - 1 ==> AppendChild(roots, c)[i] == roots[i]
    ensures var last := roots[|roots| - 1];
            AppendChild(roots, c)[|roots| - 1] == TocNode(last.title, last.page, last.children + [c])
    ensures TwoLevels(roots) ==> TwoLevels(AppendChild(roots, c))
    ensures ChildrenHavePages(roots) && c.page.Some? ==> ChildrenHavePages(AppendChild(roots, c))
    ensures Complete(roots) && c.title != "" && c.page.Some? ==> Complete(AppendChild(roots, c))
    ensures Titles(AppendChild(roots, c)) == Titles(roots)
  {
    var r := AppendChild(roots, c);
    var n := |roots|;
    assert forall i :: 0 <= i < n - 1 ==> r[i] == r[..n - 1][i] == roots[..n - 1][i] == roots[i];
    var before, after := roots[n - 1].children, r[n - 1].children;
    assert forall j :: 0 <= j < |before| ==> after[j] == before[j];
    assert r[n - 1].children[|r[n - 1].children| - 1] == c;
  }

  /** Add children at the end of the last root. */
  function AppendChildren(roots: seq<TocNode>, cs: seq<TocNode>): (r: seq<TocNode>)
    requires |roots| > 0
  {
    var last := roots[|roots| - 1];
    roots[|roots| - 1 := last.(children := last.children + cs)]
  }

  /** Appending one child and then more is appending them all at once. */
  lemma AppendChildThen(roots: seq<TocNode>, c: TocNode, cs: seq<TocNode>)
    requires |roots| > 0
    ensures AppendChildren(AppendChild(roots, c), cs) == AppendChildren(roots, [c] + cs)
  {
    var last := roots[|roots| - 1];
    assert (last.children + [c]) + cs == last.children + ([c] + cs);
  }

  lemma AppendNoChildren(roots: seq<TocNode>)
    requires |roots| > 0
    ensures AppendChildren(roots, []) == roots
  {
    var last := roots[|roots| - 1];
    assert last.children + [] == last.children;
    assert last.(children := last.children) == last;
  }

  /** Children appended to a new last root belong to that root. */
  lemma AppendToNewRoot(roots: seq<TocNode>, title: string, page: Option<nat>, cs: seq<TocNode>)
    ensures AppendChildren(roots + [Leaf(title, page)], cs) == roots + [TocNode(title, page, cs)]
  {
    assert [] + cs == cs;
  }

  /** Add a top-level leaf. */
  lemma AppendRootKeeps(roots: seq<TocNode>, c: TocNode)
    requires c.children == []
    ensures TwoLevels(roots) ==> TwoLevels(roots + [c])
    ensures ChildrenHavePages(roots) ==> ChildrenHavePages(roots + [c])
    ensures Complete(roots) && c.title != "" && c.page.Some? ==> Complete(roots + [c])
    ensures Titles(roots + [c]) == Titles(roots) + [c.title]
  {
    var r := roots + [c];
    assert forall i :: 0 <= i < |roots| ==> r[i] == roots[i];
  }

  /** A line as the keyword strategy sees it: its title and page, as
      `_parse_line` reads them, and whether the title opens a chapter. */
  datatype KeywordLine = KeywordLine(title: string, page: Option<nat>, chapter: bool)

  function ParseTocLine(line: TocLine): (r: KeywordLine)
    ensures (r.title, r.page) == ParseLine(line.text)
    ensures r.chapter <==> IsChapterTitle(r.title)
  {
    var (title, page) := ParseLine(line.text);
    KeywordLine(title, page, IsChapterTitle(title))
  }

  function ParseLines(lines: seq<TocLine>): (r: seq<KeywordLine>)
    ensures |r| == |lines|
  {
    seq(|lines|, i requires 0 <= i < |lines| => ParseTocLine(lines[i]))
  }

  /** One line of the keyword strategy: a chapter line opens a new root;
      after the first root, a line with a page becomes a child of the latest
      root; other lines are dropped. */
  function KeywordStep(roots: seq<TocNode>, line: KeywordLine): (r: seq<TocNode>)
    ensures |r| >= |roots|
  {
    if line.chapter then roots + [Leaf(line.title, line.page)]
    else if |roots| > 0 && line.page.Some? then AppendChild(roots, Leaf(line.title, line.page))
    else roots
  }

  /** The keyword strategy over the parsed lines, before the page pass. */
  function KeywordTree(lines: seq<KeywordLine>, roots: seq<TocNode>): (r: seq<TocNode>)
    ensures |r| >= |roots|
    decreases |lines|
  {
    if |lines| == 0 then roots else KeywordTree(lines[1..], KeywordStep(roots, lines[0]))
  }

  /** The title of a chapter line, or nothing. */
  function ChapterTitle(line: KeywordLine): seq<string> {
    if line.chapter then [line.title] else []
  }

  /** The titles of the chapter lines, in order. */
  function ChapterTitles(lines: seq<KeywordLine>): seq<string>
    decreases |lines|
  {
    if |lines| == 0 then [] else ChapterTitle(lines[0]) + ChapterTitles(lines[1..])
  }

  function Titles(ns: seq<TocNode>): (ts: seq<string>)
    ensures |ts| == |ns|
    ensures forall i :: 0 <= i < |ns| ==> ts[i] == ns[i].title
  {
    seq(|ns|, i requires 0 <= i < |ns| => ns[i].title)
  }

  /** Every child was a line with a page. */
  predicate ChildrenHavePages(ns: seq<TocNode>) {
    forall i :: 0 <= i < |ns| ==> forall j :: 0 <= j < |ns[i].children| ==> ns[i].children[j].page.Some?
  }

  /** One line adds a root exactly for a chapter line. */
  lemma KeywordStepTitles(roots: seq<TocNode>, line: KeywordLine)
    ensures Titles(KeywordStep(roots, line)) == Titles(roots) + ChapterTitle(line)
  {
    var (title, page) := (line.title, line.page);
    if line.chapter {
      AppendRootKeeps(roots, Leaf(title, page));
    } else if |roots| > 0 && page.Some? {
      AppendChildKeeps(roots, Leaf(title, page));
      assert Titles(roots) + [] == Titles(roots);
    } else {
      assert Titles(roots) + [] == Titles(roots);
    }
  }

  /** One line adds only children with pages. */
  lemma KeywordStepPages(roots: seq<TocNode>, line: KeywordLine)
    requires ChildrenHavePages(roots)
    ensures ChildrenHavePages(KeywordStep(roots, line))
  {
    var (title, page) := (line.title, line.page);
    if line.chapter {
      AppendRootKeeps(roots, Leaf(title, page));
    } else if |roots| > 0 && page.Some? {
      AppendChildKeeps(roots, Leaf(title, page));
    }
  }

  /** Concatenation regroups. */
  lemma TitlesRegroup(t: seq<string>, c: seq<string>, cs: seq<string>)
    ensures (t + c) + cs == t + (c + cs)
  {
  }

  /** The roots are exactly the chapter lines, in order. */
  lemma {:induction false} KeywordTreeTitles(lines: seq<KeywordLine>, roots: seq<TocNode>)
    ensures Titles(KeywordTree(lines, roots)) == Titles(roots) + ChapterTitles(lines)
    decreases |lines|
  {
    if |lines| > 0 {
      var next := KeywordStep(roots, lines[0]);
      KeywordStepTitles(roots, lines[0]);
      KeywordTreeTitles(lines[1..], next);
      assert KeywordTree(lines, roots) == KeywordTree(lines[1..], next);
      assert ChapterTitles(lines) == ChapterTitle(lines[0]) + ChapterTitles(lines[1..]);
      TitlesRegroup(Titles(roots), ChapterTitle(lines[0]), ChapterTitles(lines[1..]));
    } else {
      assert Titles(roots) + [] == Titles(roots);
    }
  }

  /** Every child the keyword strategy makes has a page. */
  lemma {:induction false} KeywordTreePages(lines: seq<KeywordLine>, roots: seq<TocNode>)
    requires ChildrenHavePages(roots)
    ensures ChildrenHavePages(KeywordTree(lines, roots))
    decreases |lines|
  {
    if |lines| > 0 {
      KeywordStepPages(roots, lines[0]);
      KeywordTreePages(lines[1..], KeywordStep(roots, lines[0]));
    }
  }

  /** The keyword strategy builds chapters and their entries: two levels. */
  lemma {:induction false} KeywordTreeTwoLevels(lines: seq<KeywordLine>, roots: seq<TocNode>)
    requires TwoLevels(roots)
    ensures TwoLevels(KeywordTree(lines, roots))
    decreases |lines|
  {
    if |lines| > 0 {
      var (title, page) := (lines[0].title, lines[0].page);
      if lines[0].chapter {
        AppendRootKeeps(roots, Leaf(title, page));
      } else if |roots| > 0 && page.Some? {
        AppendChildKeeps(roots, Leaf(title, page));
      }
      KeywordTreeTwoLevels(lines[1..], KeywordStep(roots, lines[0]));
    }
  }

  /** The entries of a chapter, read off the lines that follow its chapter
      line: every line with a page, up to the next chapter line. */
  function ChapterEntries(lines: seq<KeywordLine>): (r: seq<TocNode>)
    ensures forall j :: 0 <= j < |r| ==> r[j].children == [] && r[j].page.Some?
    decreases |lines|
  {
    if |lines| == 0 || lines[0].chapter then []
    else if lines[0].page.Some? then [Leaf(lines[0].title, lines[0].page)] + ChapterEntries(lines[1..])
    else ChapterEntries(lines[1..])
  }

  /** The keyword tree read off the lines: one root per chapter line, with the
      entries that follow it as children. Lines before the first chapter line
      belong to no root. */
  function Chapters(lines: seq<KeywordLine>): (r: seq<TocNode>)
    ensures TwoLevels(r) && ChildrenHavePages(r)
    decreases |lines|
  {
    if |lines| == 0 then []
    else if lines[0].chapter then [TocNode(lines[0].title, lines[0].page, ChapterEntries(lines[1..]))] + Chapters(lines[1..])
    else Chapters(lines[1..])
  }

  /** The keyword pass, started on some roots, adds the entries up to the
      first chapter line to the last of them and then builds `Chapters`. */
  lemma {:induction false} KeywordTreeIsChapters(lines: seq<KeywordLine>, roots: seq<TocNode>)
    ensures KeywordTree(lines, roots)
            == (if |roots| > 0 then AppendChildren(roots, ChapterEntries(lines)) else roots) + Chapters(lines)
    decreases |lines|
  {
    if |lines| == 0 {
      if |roots| > 0 {
        AppendNoChildren(roots);
      }
      assert roots + [] == roots;
    } else {
      var l := lines[0];
      var rest := lines[1..];
      var next := KeywordStep(roots, l);
      KeywordTreeIsChapters(rest, next);
      assert KeywordTree(lines, roots) == KeywordTree(rest, next);
      if l.chapter {
        AppendToNewRoot(roots, l.title, l.page, ChapterEntries(rest));
        if |roots| > 0 {
          AppendNoChildren(roots);
        }
        assert Chapters(lines) == [TocNode(l.title, l.page, ChapterEntries(rest))] + Chapters(rest);
      } else if |roots| > 0 && l.page.Some? {
        AppendChildThen(roots, Leaf(l.title, l.page), ChapterEntries(rest));
      } else if |roots| == 0 {
        assert [] + Chapters(rest) == Chapters(rest);
      }
    }
  }

  /** From no roots, the keyword pass builds exactly `Chapters`. */
  lemma KeywordTreeChapters(lines: seq<KeywordLine>)
    ensures KeywordTree(lines, []) == Chapters(lines)
  {
    KeywordTreeIsChapters(lines, []);
    assert [] + Chapters(lines) == Chapters(lines);
  }

  /** Lines before the first chapter line contribute nothing. */
  lemma {:induction false} ChaptersSkipPreamble(pre: seq<KeywordLine>, rest: seq<KeywordLine>)
    requires forall i :: 0 <= i < |pre| ==> !pre[i].chapter
    ensures Chapters(pre + rest) == Chapters(rest)
    decreases |pre|
  {
    if |pre| > 0 {
      assert (pre + rest)[1..] == pre[1..] + rest;
      ChaptersSkipPreamble(pre[1..], rest);
    } else {
      assert pre + rest == rest;
    }
  }

  /** The chapter line at position `c` is root number k, where k counts the
      chapter lines before it, and its children are the entries that follow
      it up to the next chapter line. */
  lemma {:induction false} ChaptersAt(lines: seq<KeywordLine>, c: nat)
    requires c < |lines| && lines[c].chapter
    ensures |ChapterTitles(lines[..c])| < |Chapters(lines)|
    ensures Chapters(lines)[|ChapterTitles(lines[..c])|]
            == TocNode(lines[c].title, lines[c].page, ChapterEntries(lines[c + 1..]))
    decreases c
  {
    if c == 0 {
      assert lines[..0] == [];
    } else {
      var rest := lines[1..];
      ChaptersAt(rest, c - 1);
      assert rest[..c - 1] == lines[..c][1..];
      assert rest[c - 1 + 1..] == lines[c + 1..];
      assert ChapterTitles(lines[..c]) == ChapterTitle(lines[0]) + ChapterTitles(lines[..c][1..]);
    }
  }

  // ------------------------------------------------------------ page pass

  /** The first child page that is given, if any. */
  function FirstChildPage(children: seq<TocNode>): (p: Option<nat>)
    ensures p.Some? ==> exists j :: 0 <= j < |children| && children[j].page == p
                                    && forall k :: 0 <= k < j ==> children[k].page.None?
    ensures p.None? ==> forall j :: 0 <= j < |children| ==> children[j].page.None?
  {
    if |children| == 0 then None
    else if children[0].page.Some? then children[0].page
    else FirstChildPage(children[1..])
  }

  /** `_post_process_tree` on one node: a page-less node with children takes
      its first given child page unless that page is 0 (which Python reads as
      false); then its children are processed. */
  function PostProcessNode(n: TocNode): TocNode
    decreases n
  {
    var filled :=
      if n.page.None? && |n.children| > 0 && FirstChildPage(n.children).Some? && FirstChildPage(n.children).value != 0
      then FirstChildPage(n.children)
      else n.page;
    TocNode(n.title, filled, PostProcess(n.children))
  }

  function PostProcess(ns: seq<TocNode>): (r: seq<TocNode>)
    ensures |r| == |ns|
    decreases ns
  {
    if |ns| == 0 then [] else [PostProcessNode(ns[0])] + PostProcess(ns[1..])
  }

  /** The tree with the pages left out. */
  datatype Shape = Shape(title: string, children: seq<Shape>)

  function ShapeOf(n: TocNode): Shape
    decreases n
  {
    Shape(n.title, ShapesOf(n.children))
  }

  function ShapesOf(ns: seq<TocNode>): (r: seq<Shape>)
    ensures |r| == |ns|
    decreases ns
  {
    if |ns| == 0 then [] else [ShapeOf(ns[0])] + ShapesOf(ns[1..])
  }

  /** What the page pass does to one node's page: a given page is kept; a
      missing one takes the first given child page, unless there is none or
      it is 0 (which Python reads as false), and then stays missing. */
  predicate PageFilled(after: TocNode, before: TocNode) {
    && (before.page.Some? ==> after.page == before.page)
    && (before.page.None? ==>
          (after.page.Some? <==> FirstChildPage(before.children).Some? && FirstChildPage(before.children).value != 0))
    && (before.page.None? && after.page.Some? ==> after.page == FirstChildPage(before.children))
  }

  /** The page pass keeps the shape of the tree, keeps every given page,
      fills a missing one from the first child that has one, and then
      processes the children. */
  lemma {:induction false} PostProcessKeeps(ns: seq<TocNode>)
    ensures ShapesOf(PostProcess(ns)) == ShapesOf(ns)
    ensures forall i :: 0 <= i < |ns| ==> PageFilled(PostProcess(ns)[i], ns[i])
    ensures forall i :: 0 <= i < |ns| ==> PostProcess(ns)[i].children == PostProcess(ns[i].children)
    decreases ns
  {
    if |ns| > 0 {
      PostProcessKeeps(ns[0].children);
      PostProcessKeeps(ns[1..]);
      assert PostProcess(ns) == [PostProcessNode(ns[0])] + PostProcess(ns[1..]);
      assert PostProcess(ns)[0] == PostProcessNode(ns[0]);
      forall i | 1 <= i < |ns| ensures PageFilled(PostProcess(ns)[i], ns[i]) {
        assert PostProcess(ns)[i] == PostProcess(ns[1..])[i - 1];
        assert ns[i] == ns[1..][i - 1];
      }
    }
  }

  /** `after` is `before` with the page pass applied at every depth: same
      titles, each page as `PageFilled` says, and the same for the children. */
  predicate PassedFrom(after: seq<TocNode>, before: seq<TocNode>)
    decreases before
  {
    && |after| == |before|
    && forall i :: 0 <= i < |before| ==>
         && after[i].title == before[i].title
         && PageFilled(after[i], before[i])
         && PassedFrom(after[i].children, before[i].children)
  }

  /** The page pass fills pages at every depth, not only at the top. */
  lemma {:induction false} PostProcessAllDepths(ns: seq<TocNode>)
    ensures PassedFrom(PostProcess(ns), ns)
    decreases ns
  {
    PostProcessKeeps(ns);
    forall i | 0 <= i < |ns|
      ensures PostProcess(ns)[i].title == ns[i].title
      ensures PassedFrom(PostProcess(ns)[i].children, ns[i].children)
    {
      PostProcessAt(ns, i);
      PostProcessAllDepths(ns[i].children);
    }
  }

  /** `PassedFrom` pins the result down: the page pass is the only tree it
      allows. */
  lemma {:induction false} PassedFromUnique(after: seq<TocNode>, ns: seq<TocNode>)
    requires PassedFrom(after, ns)
    ensures after == PostProcess(ns)
    decreases ns
  {
    PostProcessAllDepths(ns);
    var r := PostProcess(ns);
    forall i | 0 <= i < |ns| ensures after[i] == r[i] {
      PassedFromUnique(after[i].children, ns[i].children);
      PassedFromUnique(r[i].children, ns[i].children);
    }
  }

  /** `_strategy_keywords`. */
  function KeywordStrategy(lines: seq<TocLine>): seq<TocNode> {
    PostProcess(KeywordTree(ParseLines(lines), []))
  }

  /** The keyword strategy's roots are the chapter lines, in order; root k
      holds exactly the entries of `Chapters` (the lines with a page after
      its chapter line, up to the next one), and its page is filled by the
      page pass. */
  lemma KeywordStrategyRoots(lines: seq<TocLine>)
    ensures Titles(KeywordStrategy(lines)) == ChapterTitles(ParseLines(lines))
    ensures ChildrenHavePages(KeywordStrategy(lines))
    ensures var c := Chapters(ParseLines(lines));
            && |KeywordStrategy(lines)| == |c|
            && forall k :: 0 <= k < |c| ==>
                 && KeywordStrategy(lines)[k].children == c[k].children
                 && PageFilled(KeywordStrategy(lines)[k], c[k])
  {
    KeywordPassRoots(ParseLines(lines));
  }

  lemma KeywordPassRoots(parsed: seq<KeywordLine>)
    ensures Titles(PostProcess(KeywordTree(parsed, []))) == ChapterTitles(parsed)
    ensures ChildrenHavePages(PostProcess(KeywordTree(parsed, [])))
    ensures var c := Chapters(parsed);
            && |PostProcess(KeywordTree(parsed, []))| == |c|
            && forall k :: 0 <= k < |c| ==>
                 && PostProcess(KeywordTree(parsed, []))[k].children == c[k].children
                 && PageFilled(PostProcess(KeywordTree(parsed, []))[k], c[k])
  {
    var t := KeywordTree(parsed, []);
    KeywordTreeTitles(parsed, []);
    KeywordTreePages(parsed, []);
    PostProcessKeepsTitles(t);
    PostProcessKeepsChildPages(t);
    KeywordTreeChapters(parsed);
    PostProcessKeeps(t);
    forall k | 0 <= k < |t| ensures PostProcess(t[k].children) == t[k].children {
      LeavesUnchanged(t[k].children);
    }
  }

  /** The page pass keeps the titles of a list. */
  lemma PostProcessKeepsTitles(t: seq<TocNode>)
    ensures Titles(PostProcess(t)) == Titles(t)
  {
    PostProcessKeeps(t);
    var r := PostProcess(t);
    forall i | 0 <= i < |t| ensures r[i].title == t[i].title {
      assert ShapesOf(r)[i] == ShapesOf(t)[i];
      ShapesOfAt(r, i);
      ShapesOfAt(t, i);
    }
  }

  /** The page pass never takes a page away from a child. */
  lemma PostProcessKeepsChildPages(t: seq<TocNode>)
    requires ChildrenHavePages(t)
    ensures ChildrenHavePages(PostProcess(t))
  {
    var r := PostProcess(t);
    forall i | 0 <= i < |t| ensures forall j :: 0 <= j < |r[i].children| ==> r[i].children[j].page.Some? {
      PostProcessAt(t, i);
      PostProcessKeeps(t[i].children);
    }
  }

  lemma {:induction false} PostProcessAt(ns: seq<TocNode>, i: nat)
    requires i < |ns|
    ensures PostProcess(ns)[i] == PostProcessNode(ns[i])
    decreases i
  {
    if i > 0 {
      PostProcessAt(ns[1..], i - 1);
    }
  }

  lemma {:induction false} ShapesOfAt(ns: seq<TocNode>, i: nat)
    requires i < |ns|
    ensures ShapesOf(ns)[i] == ShapeOf(ns[i])
    decreases i
  {
    if i > 0 {
      ShapesOfAt(ns[1..], i - 1);
    }
  }

  // -------------------------------------------------------------- layout

  /** A line after the merge step: title, page (if any) and indentation. */
  datatype Entry = Entry(title: string, page: Option<nat>, x: real)

  function AbsReal(v: real): real {
    if v < 0.0 then -v else v
  }

  /** The merge step: a line without a page followed by a line that is only
      digits, less than 20 apart vertically, takes that number as its page
      and the number line is consumed. */
  function MergeLines(lines: seq<TocLine>): (r: seq<Entry>)
    ensures |r| <= |lines| && |lines| <= 2 * |r|
    decreases |lines|
  {
    if |lines| == 0 then []
    else
      var (title, page) := ParseLine(lines[0].text);
      if page.None? && |lines| > 1 && IsDigits(lines[1].text) && AbsReal(lines[1].y - lines[0].y) < 20.0 then
        [Entry(title, Some(DigitsValue(lines[1].text)), lines[0].x)] + MergeLines(lines[2..])
      else [Entry(title, page, lines[0].x)] + MergeLines(lines[1..])
  }

  /** A line without a page followed, less than 20 apart vertically, by a
      line that is only digits gives one entry: the first line's title and
      indentation with that number as its page. The number line gives no
      entry of its own. */
  lemma MergeTitleWithNumber(a: TocLine, b: TocLine, rest: seq<TocLine>)
    requires ParseLine(a.text).1.None? && IsDigits(b.text) && AbsReal(b.y - a.y) < 20.0
    ensures MergeLines([a, b] + rest)
            == [Entry(ParseLine(a.text).0, Some(DigitsValue(b.text)), a.x)] + MergeLines(rest)
  {
    assert ([a, b] + rest)[2..] == rest;
  }

  /** Any other line is an entry on its own, with its parsed title and page. */
  lemma MergeLineAlone(a: TocLine, rest: seq<TocLine>)
    requires ParseLine(a.text).1.None? && |rest| > 0 ==> !IsDigits(rest[0].text) || AbsReal(rest[0].y - a.y) >= 20.0
    ensures MergeLines([a] + rest) == [Entry(ParseLine(a.text).0, ParseLine(a.text).1, a.x)] + MergeLines(rest)
  {
    assert ([a] + rest)[1..] == rest;
  }

  /** Without lines that are only digits nothing is merged: every line
      becomes one entry, its own parsed title and page at its own
      indentation. */
  lemma {:induction false} MergeLinesPlain(lines: seq<TocLine>)
    requires forall i :: 0 <= i < |lines| ==> !IsDigits(lines[i].text)
    ensures |MergeLines(lines)| == |lines|
    ensures forall i :: 0 <= i < |lines| ==>
              MergeLines(lines)[i] == Entry(ParseLine(lines[i].text).0, ParseLine(lines[i].text).1, lines[i].x)
    decreases |lines|
  {
    if |lines| > 0 {
      MergeLinesPlain(lines[1..]);
      var r := MergeLines(lines);
      assert r == [Entry(ParseLine(lines[0].text).0, ParseLine(lines[0].text).1, lines[0].x)] + MergeLines(lines[1..]);
      forall i | 1 <= i < |lines|
        ensures r[i] == Entry(ParseLine(lines[i].text).0, ParseLine(lines[i].text).1, lines[i].x)
      {
        assert lines[1..][i - 1] == lines[i];
      }
    }
  }

  /** Every node has a title and a page. */
  predicate Complete(ns: seq<TocNode>) {
    forall i :: 0 <= i < |ns| ==>
      && ns[i].title != "" && ns[i].page.Some?
      && forall j :: 0 <= j < |ns[i].children| ==> ns[i].children[j].title != "" && ns[i].children[j].page.Some?
  }

  /**
    The indentation tree as written. The parent stack holds the root (with
    indentation -1) and at most one open top-level entry. An entry without a
    title or page is skipped; one indented deeper than the open entry
    becomes its child; any other closes it and becomes a new top-level
    entry. An entry at indentation -1 or less pops the root as well, and the
    next look at the stack fails: `None`.
  */
  function LayoutTreeAsWritten(es: seq<Entry>, roots: seq<TocNode>, open: Option<real>): (r: Option<seq<TocNode>>)
    requires open.Some? ==> |roots| > 0
    decreases |es|
  {
    if |es| == 0 then Some(roots)
    else
      var e := es[0];
      if e.title == "" || e.page.None? then LayoutTreeAsWritten(es[1..], roots, open)
      else if open.Some? && e.x > open.value then
        LayoutTreeAsWritten(es[1..], AppendChild(roots, Leaf(e.title, e.page)), open)
      else if e.x <= -1.0 then None
      else LayoutTreeAsWritten(es[1..], roots + [Leaf(e.title, e.page)], Some(e.x))
  }

  /** An entry at indentation -5 makes the as-written tree builder fail. */
  lemma LayoutNegativeIndentFails()
    ensures LayoutTreeAsWritten([Entry("Intro", Some(3), -5.0)], [], None).None?
  {
  }

  /** The indentation tree with the root never popped: an entry not deeper
      than the open one becomes a new top-level entry wherever it sits. */
  function LayoutTree(es: seq<Entry>, roots: seq<TocNode>, open: Option<real>): (r: seq<TocNode>)
    requires open.Some? ==> |roots| > 0
    requires TwoLevels(roots) && Complete(roots)
    ensures TwoLevels(r) && Complete(r) && |r| >= |roots|
    decreases |es|
  {
    if |es| == 0 then roots
    else
      var e := es[0];
      if e.title == "" || e.page.None? then LayoutTree(es[1..], roots, open)
      else if open.Some? && e.x > open.value then
        AppendChildKeeps(roots, Leaf(e.title, e.page));
        LayoutTree(es[1..], AppendChild(roots, Leaf(e.title, e.page)), open)
      else
        AppendRootKeeps(roots, Leaf(e.title, e.page));
        LayoutTree(es[1..], roots + [Leaf(e.title, e.page)], Some(e.x))
  }

  /** Where the as-written builder does not fail, it builds the corrected tree. */
  lemma {:induction false} LayoutTreeAgrees(es: seq<Entry>, roots: seq<TocNode>, open: Option<real>)
    requires open.Some? ==> |roots| > 0
    requires TwoLevels(roots) && Complete(roots)
    ensures LayoutTreeAsWritten(es, roots, open).Some? ==> LayoutTreeAsWritten(es, roots, open).value == LayoutTree(es, roots, open)
    decreases |es|
  {
    if |es| > 0 {
      var e := es[0];
      if e.title == "" || e.page.None? {
        LayoutTreeAgrees(es[1..], roots, open);
      } else if open.Some? && e.x > open.value {
        AppendChildKeeps(roots, Leaf(e.title, e.page));
        LayoutTreeAgrees(es[1..], AppendChild(roots, Leaf(e.title, e.page)), open);
      } else if e.x > -1.0 {
        AppendRootKeeps(roots, Leaf(e.title, e.page));
        LayoutTreeAgrees(es[1..], roots + [Leaf(e.title, e.page)], Some(e.x));
      }
    }
  }

  /** The entries the builder keeps: those with a title and a page. */
  function Kept(es: seq<Entry>): (r: seq<Entry>)
    ensures |r| <= |es|
    ensures forall j :: 0 <= j < |r| ==> r[j].title != "" && r[j].page.Some?
    decreases |es|
  {
    if |es| == 0 then []
    else if es[0].title == "" || es[0].page.None? then Kept(es[1..])
    else [es[0]] + Kept(es[1..])
  }

  /** The leading entries indented deeper than `x`, as leaves. */
  function DeeperRun(es: seq<Entry>, x: real): (r: seq<TocNode>)
    ensures |r| <= |es|
    decreases |es|
  {
    if |es| == 0 || es[0].x <= x then [] else [Leaf(es[0].title, es[0].page)] + DeeperRun(es[1..], x)
  }

  /** What follows the leading entries indented deeper than `x`. */
  function AfterRun(es: seq<Entry>, x: real): (r: seq<Entry>)
    ensures |r| <= |es|
    ensures |r| > 0 ==> r[0].x <= x
    decreases |es|
  {
    if |es| == 0 || es[0].x <= x then es else AfterRun(es[1..], x)
  }

  /** The indentation tree read off the kept entries: each entry that is not
      a child opens a root, and the entries right after it that are indented
      deeper than it are its children. */
  function LayoutRoots(ks: seq<Entry>): seq<TocNode>
    decreases |ks|
  {
    if |ks| == 0 then []
    else [TocNode(ks[0].title, ks[0].page, DeeperRun(ks[1..], ks[0].x))] + LayoutRoots(AfterRun(ks[1..], ks[0].x))
  }

  /** The builder makes `LayoutRoots` of the kept entries: with a root open
      at indentation x, the kept entries deeper than x join it, and the rest
      build roots of their own. */
  lemma {:induction false} LayoutTreeIsRoots(es: seq<Entry>, roots: seq<TocNode>, open: Option<real>)
    requires open.Some? ==> |roots| > 0
    requires TwoLevels(roots) && Complete(roots)
    ensures LayoutTree(es, roots, open)
            == if open.Some?
               then AppendChildren(roots, DeeperRun(Kept(es), open.value)) + LayoutRoots(AfterRun(Kept(es), open.value))
               else roots + LayoutRoots(Kept(es))
    decreases |es|
  {
    if |es| == 0 {
      if open.Some? {
        AppendNoChildren(roots);
      }
      assert roots + [] == roots;
    } else {
      var e := es[0];
      var rest := es[1..];
      var k := Kept(rest);
      if e.title == "" || e.page.None? {
        LayoutTreeIsRoots(rest, roots, open);
      } else {
        assert Kept(es) == [e] + k;
        assert ([e] + k)[1..] == k;
        if open.Some? && e.x > open.value {
          AppendChildKeeps(roots, Leaf(e.title, e.page));
          LayoutTreeIsRoots(rest, AppendChild(roots, Leaf(e.title, e.page)), open);
          AppendChildThen(roots, Leaf(e.title, e.page), DeeperRun(k, open.value));
        } else {
          AppendRootKeeps(roots, Leaf(e.title, e.page));
          LayoutTreeIsRoots(rest, roots + [Leaf(e.title, e.page)], Some(e.x));
          AppendToNewRoot(roots, e.title, e.page, DeeperRun(k, e.x));
          if open.Some? {
            AppendNoChildren(roots);
          }
        }
      }
    }
  }

  /** Roots, each followed by its children: the tree's reading order. */
  function ReadingOrder(ns: seq<TocNode>): seq<TocNode>
    decreases |ns|
  {
    if |ns| == 0 then [] else [Leaf(ns[0].title, ns[0].page)] + ns[0].children + ReadingOrder(ns[1..])
  }

  /** Each entry as a leaf, in order. */
  function Leaves(es: seq<Entry>): (r: seq<TocNode>)
    ensures |r| == |es|
    decreases |es|
  {
    if |es| == 0 then [] else [Leaf(es[0].title, es[0].page)] + Leaves(es[1..])
  }

  lemma LeavesCons(es: seq<Entry>)
    requires |es| > 0
    ensures Leaves(es) == [Leaf(es[0].title, es[0].page)] + Leaves(es[1..])
  {
  }

  /** The deeper run and what follows it split the entries. */
  lemma {:induction false} RunSplits(es: seq<Entry>, x: real)
    ensures DeeperRun(es, x) + Leaves(AfterRun(es, x)) == Leaves(es)
    decreases |es|
  {
    if |es| > 0 && es[0].x > x {
      RunSplits(es[1..], x);
      LeavesCons(es);
    } else {
      assert [] + Leaves(es) == Leaves(es);
    }
  }

  /** Every kept entry appears in the tree once, in the order of the lines. */
  lemma {:induction false} LayoutRootsInOrder(ks: seq<Entry>)
    ensures ReadingOrder(LayoutRoots(ks)) == Leaves(ks)
    decreases |ks|
  {
    if |ks| > 0 {
      var x := ks[0].x;
      var after := AfterRun(ks[1..], x);
      LayoutRootsInOrder(after);
      RunSplits(ks[1..], x);
      LeavesCons(ks);
      var t := LayoutRoots(ks);
      var head := Leaf(ks[0].title, ks[0].page);
      var run := DeeperRun(ks[1..], x);
      assert t == [TocNode(ks[0].title, ks[0].page, run)] + LayoutRoots(after);
      assert t[1..] == LayoutRoots(after);
      assert ReadingOrder(t) == [head] + run + Leaves(after);
      assert [head] + run + Leaves(after) == [head] + (run + Leaves(after));
      assert run + Leaves(after) == Leaves(ks[1..]);
      assert [head] + Leaves(ks[1..]) == Leaves(ks);
    }
  }

  /** `_strategy_layout`, corrected: merge, build, fill pages. The result is
      `LayoutRoots` of the merged entries that have a title and a page, which
      appear in it in the order of the lines. Every node has a title and a
      page and the tree is at most two levels deep. */
  function LayoutStrategy(lines: seq<TocLine>): (r: seq<TocNode>)
    ensures |lines| == 0 ==> r == []
    ensures TwoLevels(r) && Complete(r)
    ensures r == LayoutRoots(Kept(MergeLines(lines)))
    ensures ReadingOrder(r) == Leaves(Kept(MergeLines(lines)))
  {
    if |lines| == 0 then []
    else
      var es := MergeLines(lines);
      var t := LayoutTree(es, [], None);
      LayoutPostProcess(t);
      LayoutTreeIsRoots(es, [], None);
      assert [] + LayoutRoots(Kept(es)) == LayoutRoots(Kept(es));
      LayoutRootsInOrder(Kept(es));
      PostProcess(t)
  }

  /** On a complete two-level tree the page pass changes nothing. */
  lemma LayoutPostProcess(t: seq<TocNode>)
    requires TwoLevels(t) && Complete(t)
    ensures PostProcess(t) == t
  {
    forall i | 0 <= i < |t| ensures PostProcess(t[i].children) == t[i].children {
      LeavesUnchanged(t[i].children);
    }
    NodesWithPagesUnchanged(t);
  }

  lemma {:induction false} LeavesUnchanged(ns: seq<TocNode>)
    requires forall j :: 0 <= j < |ns| ==> ns[j].children == [] && ns[j].page.Some?
    ensures PostProcess(ns) == ns
    decreases |ns|
  {
    if |ns| > 0 {
      LeavesUnchanged(ns[1..]);
      assert PostProcess(ns[0].children) == [];
    }
  }

  lemma {:induction false} NodesWithPagesUnchanged(ns: seq<TocNode>)
    requires forall j :: 0 <= j < |ns| ==> ns[j].page.Some? && PostProcess(ns[j].children) == ns[j].children
    ensures PostProcess(ns) == ns
    decreases |ns|
  {
    if |ns| > 0 {
      NodesWithPagesUnchanged(ns[1..]);
    }
  }

  /** The extractor's choice: the keyword strategy, or the layout strategy
      when the keyword strategy finds nothing. */
  function ExtractToc(lines: seq<TocLine>): (r: seq<TocNode>)
    ensures |KeywordStrategy(lines)| > 0 ==> r == KeywordStrategy(lines)
    ensures |KeywordStrategy(lines)| == 0 ==> r == LayoutStrategy(lines) && Complete(r)
  {
    var k := KeywordStrategy(lines);
    if |k| > 0 then k else LayoutStrategy(lines)
  }
}
