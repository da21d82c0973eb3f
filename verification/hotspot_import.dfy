/**
  Importing hotspots from a spreadsheet: the header row names the columns,
  every later row that is not empty becomes one hotspot descriptor, the
  icon is chosen from the link's file extension, and linked files are
  copied into the media directory under a name that clashes with nothing.
*/
module HotspotImport {
  import opened Options
  import opened Text
  import opened Cells
  import opened FileNames

  // ================================================================ icons

  const AudioExts: seq<string> := [".mp3", ".wav", ".ogg", ".m4a"]
  const VideoExts: seq<string> := [".mp4", ".mov", ".webm", ".avi"]
  const ImageExts: seq<string> := [".png", ".jpg", ".jpeg", ".gif", ".svg", ".bmp"]
  const PageExts: seq<string> := [".html", ".htm"]
  const PdfExts: seq<string> := [".pdf"]

  predicate Listed(ext: string) {
    ext in AudioExts || ext in VideoExts || ext in ImageExts || ext in PageExts || ext in PdfExts
  }

  /** The icon for a (lower-case) extension: by the lists above, else a
      link icon for a URL hotspot, else the default one. */
  function IconOfExt(ext: string, hotspotType: Value): (icon: string)
    ensures icon == "audio" <==> ext in AudioExts
    ensures icon == "video" <==> ext in VideoExts
    ensures icon == "image" <==> ext in ImageExts
    ensures icon == "pdf" <==> ext in PdfExts
    ensures icon == "link" <==> ext in PageExts || (!Listed(ext) && hotspotType == StrValue("url"))
    ensures icon == "default" <==> !Listed(ext) && hotspotType != StrValue("url")
  {
    if ext in AudioExts then "audio"
    else if ext in VideoExts then "video"
    else if ext in ImageExts then "image"
    else if ext in PageExts then "link"
    else if ext in PdfExts then "pdf"
    else if hotspotType == StrValue("url") then "link"
    else "default"
  }

  /**
    The icon for a row's link cell: the default one when the cell is empty;
    by the extension of the lower-cased text otherwise. A non-empty cell
    that is not text has no `lower` and the import stops there: `None`.
  */
  function IconFor(link: Value, hotspotType: Value): (icon: Option<string>)
    ensures !Truthy(link) ==> icon == Some("default")
    ensures icon.None? <==> Truthy(link) && !link.StrValue?
  {
    if !Truthy(link) then Some("default")
    else
      match link
      case StrValue(s) => Some(IconOfExt(SplitExt(AsciiLower(s)).1, hotspotType))
      case _ => None
  }

  lemma AsciiLowerIdempotent(s: string)
    ensures AsciiLower(AsciiLower(s)) == AsciiLower(s)
  {
    assert forall i :: 0 <= i < |s| ==> AsciiLowerChar(AsciiLowerChar(s[i])) == AsciiLowerChar(s[i]);
  }

  /** The icon does not depend on the letter case of the link. */
  lemma IconIgnoresCase(s: string, hotspotType: Value)
    ensures IconFor(StrValue(AsciiLower(s)), hotspotType) == IconFor(StrValue(s), hotspotType)
  {
    AsciiLowerIdempotent(s);
    if |s| == 0 {
      assert AsciiLower(s) == "";
    }
  }

  // ============================================================== columns

  /** Where each named column sits in the header row. */
  datatype Columns = Columns(id: nat, shape: nat, x: nat, y: nat, w: nat, h: nat,
                             linkType: nat, linkFile: nat, target: nat, description: nat)

  /** `header.index(name)`: the first cell holding exactly that text. */
  function HeaderIndex(header: Row, name: string): (r: Option<nat>)
    ensures r.Some? ==> r.value < |header| && header[r.value] == StrValue(name)
                        && forall j :: 0 <= j < r.value ==> header[j] != StrValue(name)
    ensures r.None? <==> StrValue(name) !in header
    decreases |header|
  {
    if |header| == 0 then None
    else if header[0] == StrValue(name) then Some(0)
    else
      match HeaderIndex(header[1..], name)
      case Some(i) => Some(i + 1)
      case None => None
  }

  const RequiredHeaders: seq<string> := ["id", "绘制形状", "x", "y", "宽", "高", "类型", "链接/文件", "打开方式", "说明"]

  /** Every required header is present. */
  predicate HasHeaders(header: Row) {
    forall name :: name in RequiredHeaders ==> StrValue(name) in header
  }

  function Index(header: Row, name: string): (i: nat)
    requires StrValue(name) in header
    ensures i < |header| && header[i] == StrValue(name)
  {
    HeaderIndex(header, name).value
  }

  predicate Labelled(header: Row, i: nat, name: string) {
    i < |header| && header[i] == StrValue(name)
  }

  /** Each column of the map sits under its header. */
  predicate Labels(header: Row, c: Columns) {
    && Labelled(header, c.id, "id") && Labelled(header, c.shape, "绘制形状")
    && Labelled(header, c.x, "x") && Labelled(header, c.y, "y")
    && Labelled(header, c.w, "宽") && Labelled(header, c.h, "高")
    && Labelled(header, c.linkType, "类型") && Labelled(header, c.linkFile, "链接/文件")
    && Labelled(header, c.target, "打开方式") && Labelled(header, c.description, "说明")
  }

  /** The column map, or nothing when a required header is missing. */
  function ColumnsOf(header: Row): (r: Option<Columns>)
    ensures r.None? <==> !HasHeaders(header)
    ensures r.Some? ==> Labels(header, r.value)
  {
    if !HasHeaders(header) then None
    else
      assert "id" in RequiredHeaders && "绘制形状" in RequiredHeaders && "x" in RequiredHeaders && "y" in RequiredHeaders;
      assert "宽" in RequiredHeaders && "高" in RequiredHeaders && "类型" in RequiredHeaders;
      assert "链接/文件" in RequiredHeaders && "打开方式" in RequiredHeaders && "说明" in RequiredHeaders;
      Some(Columns(Index(header, "id"), Index(header, "绘制形状"), Index(header, "x"), Index(header, "y"),
                   Index(header, "宽"), Index(header, "高"), Index(header, "类型"), Index(header, "链接/文件"),
                   Index(header, "打开方式"), Index(header, "说明")))
  }

  // ========================================================== descriptors

  /** The link part of a hotspot: URL settings, file settings, or the
      defaults when the type is neither. */
  datatype Link = DefaultLink | UrlLink(url: Value, target: Value) | FileLink(path: string, display: Value)

  /** What a row becomes: position, size, shape, and the data fields the
      row sets on top of the defaults. */
  datatype Descriptor = Descriptor(x: real, y: real, w: real, h: real, shape: Value,
                                   description: Value, hotspotType: Value, iconType: string, link: Link)

  /** The import so far: the paths that exist and the hotspots built. */
  datatype State = State(files: set<string>, hotspots: seq<Descriptor>)

  function Cell(row: Row, i: nat): Option<Value> {
    if i < |row| then Some(row[i]) else None
  }

  /**
    One row. An empty row, a missing cell, a number `float` rejects, a
    file row without a path or whose copy fails all skip the row; a
    non-text link stops the import (`None`). A file row copies its file
    before its display cell is read, so a row skipped for lacking that
    cell still leaves the copy behind.
  */
  function ImportRow(cols: Columns, mediaDir: string, failing: set<string>, st: State, row: Row): (r: Option<State>)
    ensures r.Some? ==> st.files <= r.value.files
    ensures r.Some? ==> r.value.hotspots == st.hotspots || (|r.value.hotspots| == |st.hotspots| + 1 && r.value.hotspots[..|st.hotspots|] == st.hotspots)
    ensures !AnyTruthy(row) ==> r == Some(st)
  {
    if !AnyTruthy(row) then Some(st)
    else
      match (Cell(row, cols.shape), Cell(row, cols.x), Cell(row, cols.y), Cell(row, cols.w), Cell(row, cols.h))
      case (Some(shape), Some(xv), Some(yv), Some(wv), Some(hv)) =>
        (match (FloatOf(xv), FloatOf(yv), FloatOf(wv), FloatOf(hv))
         case (Some(x), Some(y), Some(w), Some(h)) =>
           (match (Cell(row, cols.description), Cell(row, cols.linkType), Cell(row, cols.linkFile))
            case (Some(desc), Some(kind), Some(link)) =>
              var description := if Truthy(desc) then desc else StrValue("");
              (match IconFor(link, kind)
               case None => None
               case Some(icon) =>
                 var d := Descriptor(x, y, w, h, shape, description, kind, icon, DefaultLink);
                 if kind == StrValue("url") then
                   match Cell(row, cols.target)
                   case Some(target) => Some(State(st.files, st.hotspots + [d.(link := UrlLink(link, target))]))
                   case None => Some(st)
                 else if kind == StrValue("file") then
                   if !Truthy(link) then Some(st)
                   else
                     match CopyWithConflictResolution(link.s, mediaDir, st.files, failing)
                     case None => Some(st)
                     case Some(path) =>
                       var files := st.files + {path};
                       match Cell(row, cols.target)
                       case Some(display) => Some(State(files, st.hotspots + [d.(link := FileLink(path, display))]))
                       case None => Some(State(files, st.hotspots))
                 else Some(State(st.files, st.hotspots + [d])))
            case _ => Some(st))
         case _ => Some(st))
      case _ => Some(st)
  }

  function ImportRows(cols: Columns, mediaDir: string, failing: set<string>, st: State, rows: seq<Row>): (r: Option<State>)
    decreases |rows|
  {
    if |rows| == 0 then Some(st)
    else
      match ImportRow(cols, mediaDir, failing, st, rows[0])
      case Some(st1) => ImportRows(cols, mediaDir, failing, st1, rows[1..])
      case None => None
  }

  datatype Outcome = MissingHeader | Stopped | Imported(hotspots: seq<Descriptor>, files: set<string>)

  /** `import_hotspots_from_excel` on a sheet's rows, the first being the
      header. */
  function ImportHotspots(sheet: seq<Row>, mediaDir: string, files: set<string>, failing: set<string>): (r: Outcome)
    ensures r == MissingHeader <==> ColumnsOf(if |sheet| == 0 then [] else sheet[0]).None?
  {
    match ColumnsOf(if |sheet| == 0 then [] else sheet[0])
    case None => MissingHeader
    case Some(cols) =>
      match ImportRows(cols, mediaDir, failing, State(files, []), if |sheet| == 0 then [] else sheet[1..])
      case Some(st) => Imported(st.hotspots, st.files)
      case None => Stopped
  }

  // ============================================================ properties

  /** What a kept row's descriptor holds: the row's numbers, shape, type
      and icon, and a link of the row's type. */
  lemma ImportRowFields(cols: Columns, mediaDir: string, failing: set<string>, st: State, row: Row)
    requires var r := ImportRow(cols, mediaDir, failing, st, row); r.Some? && |r.value.hotspots| == |st.hotspots| + 1
    ensures var d := ImportRow(cols, mediaDir, failing, st, row).value.hotspots[|st.hotspots|];
            && cols.x < |row| && cols.y < |row| && cols.w < |row| && cols.h < |row|
            && cols.shape < |row| && cols.linkType < |row| && cols.linkFile < |row| && cols.description < |row|
            && d.description == (if Truthy(row[cols.description]) then row[cols.description] else StrValue(""))
            && (d.link.UrlLink? || d.link.FileLink? ==> cols.target < |row|)
            && FloatOf(row[cols.x]) == Some(d.x) && FloatOf(row[cols.y]) == Some(d.y)
            && FloatOf(row[cols.w]) == Some(d.w) && FloatOf(row[cols.h]) == Some(d.h)
            && d.shape == row[cols.shape] && d.hotspotType == row[cols.linkType]
            && IconFor(row[cols.linkFile], row[cols.linkType]) == Some(d.iconType)
            && (d.link.UrlLink? <==> row[cols.linkType] == StrValue("url"))
            && (d.link.FileLink? <==> row[cols.linkType] == StrValue("file"))
            && (d.link.UrlLink? ==> d.link == UrlLink(row[cols.linkFile], row[cols.target]))
            && (d.link.FileLink? ==> d.link.display == row[cols.target])
  {
  }

  /** A file row whose copy fails, or that names no file, adds nothing. */
  lemma FileRowSkipped(cols: Columns, mediaDir: string, failing: set<string>, st: State, row: Row)
    requires cols.linkType < |row| && row[cols.linkType] == StrValue("file")
    requires cols.linkFile < |row|
    requires var link := row[cols.linkFile];
             !Truthy(link) || (link.StrValue? && CopyWithConflictResolution(link.s, mediaDir, st.files, failing).None?)
    ensures ImportRow(cols, mediaDir, failing, st, row) == Some(st)
  {
  }

  /** A row with a coordinate `float` rejects adds nothing. */
  lemma BadNumberSkipped(cols: Columns, mediaDir: string, failing: set<string>, st: State, row: Row)
    requires cols.x < |row| && FloatOf(row[cols.x]).None?
    ensures ImportRow(cols, mediaDir, failing, st, row) == Some(st)
  {
  }

  lemma {:induction false} ImportRowsAppend(cols: Columns, mediaDir: string, failing: set<string>, st: State, a: seq<Row>, b: seq<Row>)
    ensures ImportRows(cols, mediaDir, failing, st, a + b)
            == match ImportRows(cols, mediaDir, failing, st, a)
               case Some(st1) => ImportRows(cols, mediaDir, failing, st1, b)
               case None => None
    decreases |a|
  {
    if |a| == 0 {
      assert a + b == b;
    } else {
      assert (a + b)[0] == a[0] && (a + b)[1..] == a[1..] + b;
      match ImportRow(cols, mediaDir, failing, st, a[0])
      case Some(st1) => ImportRowsAppend(cols, mediaDir, failing, st1, a[1..], b);
      case None =>
    }
  }

  /** Hotspots come out in row order, at most one per row, and files are
      only ever added. */
  lemma {:induction false} ImportRowsOrder(cols: Columns, mediaDir: string, failing: set<string>, st: State, rows: seq<Row>)
    requires ImportRows(cols, mediaDir, failing, st, rows).Some?
    ensures var st' := ImportRows(cols, mediaDir, failing, st, rows).value;
            && st.files <= st'.files
            && |st.hotspots| <= |st'.hotspots| <= |st.hotspots| + |rows|
            && st'.hotspots[..|st.hotspots|] == st.hotspots
    decreases |rows|
  {
    if |rows| > 0 {
      var st1 := ImportRow(cols, mediaDir, failing, st, rows[0]).value;
      ImportRowsOrder(cols, mediaDir, failing, st1, rows[1..]);
      var st' := ImportRows(cols, mediaDir, failing, st, rows).value;
      assert st'.hotspots[..|st1.hotspots|] == st1.hotspots;
      assert st'.hotspots[..|st.hotspots|] == st'.hotspots[..|st1.hotspots|][..|st.hotspots|];
    }
  }

  /** Every imported file sits at a path that did not exist before the
      import and does now, and no two hotspots share one. */
  predicate FreshFiles(hs: seq<Descriptor>, before: set<string>, now: set<string>) {
    && (forall i :: 0 <= i < |hs| && hs[i].link.FileLink? ==> hs[i].link.path in now && hs[i].link.path !in before)
    && (forall i, j :: 0 <= i < j < |hs| && hs[i].link.FileLink? && hs[j].link.FileLink? ==> hs[i].link.path != hs[j].link.path)
  }

  /** A file hotspot that a row adds links to the path its copy just took. */
  lemma ImportRowNewPath(cols: Columns, mediaDir: string, failing: set<string>, st: State, row: Row)
    requires var r := ImportRow(cols, mediaDir, failing, st, row);
             r.Some? && |r.value.hotspots| == |st.hotspots| + 1 && r.value.hotspots[|st.hotspots|].link.FileLink?
    ensures var r := ImportRow(cols, mediaDir, failing, st, row).value;
            r.hotspots[|st.hotspots|].link.path in r.files && r.hotspots[|st.hotspots|].link.path !in st.files
  {
    var d := ImportRow(cols, mediaDir, failing, st, row).value.hotspots[|st.hotspots|];
    ImportRowFields(cols, mediaDir, failing, st, row);
    var link := row[cols.linkFile];
    assert CopyWithConflictResolution(link.s, mediaDir, st.files, failing) == Some(d.link.path);
  }

  lemma FreshGrow(hs: seq<Descriptor>, before: set<string>, mid: set<string>, now: set<string>)
    requires mid <= now && FreshFiles(hs, before, mid)
    ensures FreshFiles(hs, before, now)
  {
  }

  lemma FreshExtend(hs: seq<Descriptor>, d: Descriptor, before: set<string>, mid: set<string>, now: set<string>)
    requires before <= mid <= now && FreshFiles(hs, before, mid)
    requires d.link.FileLink? ==> d.link.path in now && d.link.path !in mid
    ensures FreshFiles(hs + [d], before, now)
  {
    var hs' := hs + [d];
    forall i, j | 0 <= i < j < |hs'| && hs'[i].link.FileLink? && hs'[j].link.FileLink?
      ensures hs'[i].link.path != hs'[j].link.path
    {
      assert hs'[i] == hs[i];
      if j < |hs| {
        assert hs'[j] == hs[j];
      }
    }
    forall i | 0 <= i < |hs'| && hs'[i].link.FileLink?
      ensures hs'[i].link.path in now && hs'[i].link.path !in before
    {
      if i < |hs| {
        assert hs'[i] == hs[i];
      }
    }
  }

  lemma ImportRowFresh(cols: Columns, mediaDir: string, failing: set<string>, before: set<string>, st: State, row: Row)
    requires before <= st.files && FreshFiles(st.hotspots, before, st.files)
    requires ImportRow(cols, mediaDir, failing, st, row).Some?
    ensures var st' := ImportRow(cols, mediaDir, failing, st, row).value;
            before <= st'.files && FreshFiles(st'.hotspots, before, st'.files)
  {
    var st' := ImportRow(cols, mediaDir, failing, st, row).value;
    if |st'.hotspots| == |st.hotspots| + 1 {
      var d := st'.hotspots[|st.hotspots|];
      assert st'.hotspots == st.hotspots + [d];
      if d.link.FileLink? {
        ImportRowNewPath(cols, mediaDir, failing, st, row);
      }
      FreshExtend(st.hotspots, d, before, st.files, st'.files);
    } else {
      FreshGrow(st.hotspots, before, st.files, st'.files);
    }
  }

  lemma {:induction false} ImportRowsFresh(cols: Columns, mediaDir: string, failing: set<string>, before: set<string>, st: State, rows: seq<Row>)
    requires before <= st.files && FreshFiles(st.hotspots, before, st.files)
    requires ImportRows(cols, mediaDir, failing, st, rows).Some?
    ensures var st' := ImportRows(cols, mediaDir, failing, st, rows).value;
            before <= st'.files && FreshFiles(st'.hotspots, before, st'.files)
    decreases |rows|
  {
    if |rows| > 0 {
      ImportRowFresh(cols, mediaDir, failing, before, st, rows[0]);
      var st1 := ImportRow(cols, mediaDir, failing, st, rows[0]).value;
      ImportRowsFresh(cols, mediaDir, failing, before, st1, rows[1..]);
    }
  }

  /** An import copies each linked file to its own new path. */
  lemma ImportedFilesFresh(sheet: seq<Row>, mediaDir: string, files: set<string>, failing: set<string>)
    requires ImportHotspots(sheet, mediaDir, files, failing).Imported?
    ensures var r := ImportHotspots(sheet, mediaDir, files, failing);
            files <= r.files && FreshFiles(r.hotspots, files, r.files) && |r.hotspots| < |sheet|
  {
    var cols := ColumnsOf(sheet[0]).value;
    ImportRowsFresh(cols, mediaDir, failing, files, State(files, []), sheet[1..]);
    ImportRowsOrder(cols, mediaDir, failing, State(files, []), sheet[1..]);
  }
}
