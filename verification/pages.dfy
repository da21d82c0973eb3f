/**
  The project's page list as the main window keeps it: the editing sessions
  and their viewers in two parallel lists, the active page index (-1 for
  none), the page navigation controls it drives, and the undoable page
  deletion, which lives on the project's undo stack.
*/
module Pages {
  import opened Options
  import opened Text
  import opened History
  import Ids

  /** Sessions and viewers are objects; the model names them by reference. */
  type SessionRef = nat
  type ViewerRef = nat

  datatype Window = Window(
    sessions: seq<SessionRef>,
    viewers: seq<ViewerRef>,
    active: int,
    dirty: bool,
    scroll: int,          // the page scrollbar's value
    pageInput: string,    // the page number text box
    newItemPage: int)     // the outline's default page for new entries

  /** The two lists stay parallel and no session appears twice. */
  predicate Valid(w: Window) {
    && |w.sessions| == |w.viewers|
    && forall i, j :: 0 <= i < j < |w.sessions| ==> w.sessions[i] != w.sessions[j]
  }

  /** `active_session`: the session at the active index, if that index is one. */
  function ActiveSession(w: Window): (s: Option<SessionRef>)
    ensures s.Some? <==> 0 <= w.active < |w.sessions|
    ensures s.Some? ==> s.value == w.sessions[w.active]
  {
    if 0 <= w.active < |w.sessions| then Some(w.sessions[w.active]) else None
  }

  /** The navigation controls' state, as the refresh sets it. */
  datatype Controls = Controls(
    prevEnabled: bool,
    nextEnabled: bool,
    deletePageEnabled: bool,
    pageLabel: string,
    inputEnabled: bool,
    scrollEnabled: bool,
    scrollMax: nat)

  function ControlsOf(w: Window): (c: Controls)
    ensures c.prevEnabled <==> w.active > 0
    ensures c.nextEnabled <==> w.active < |w.sessions| - 1
    ensures c.deletePageEnabled == c.inputEnabled == ActiveSession(w).Some?
    ensures c.scrollEnabled <==> |w.sessions| > 1
    ensures c.scrollMax + 1 == |w.sessions| || (|w.sessions| == 0 && c.scrollMax == 0)
  {
    var n := |w.sessions|;
    var has := ActiveSession(w).Some?;
    Controls(
      w.active > 0,
      w.active < n - 1,
      has,
      if has then NatToString((w.active + 1) as nat) + " / " + NatToString(n) else "0 / 0",
      has,
      n > 1,
      if n > 0 then n - 1 else 0)
  }

  /** `update_ui_for_active_session`: the scrollbar and page box follow the
      active page. */
  function UpdateUi(w: Window): (r: Window)
    ensures r == w.(scroll := r.scroll, pageInput := r.pageInput)
    ensures ActiveSession(w).Some? ==> r.scroll == w.active && r.pageInput == NatToString((w.active + 1) as nat)
    ensures ActiveSession(w).None? ==> r.scroll == 0 && r.pageInput == ""
  {
    if ActiveSession(w).Some? then w.(scroll := w.active, pageInput := NatToString((w.active + 1) as nat))
    else w.(scroll := 0, pageInput := "")
  }

  /** The page label reads back as the active page number and the page count. */
  lemma LabelShowsPage(w: Window)
    requires ActiveSession(w).Some?
    ensures var c := ControlsOf(w);
            exists a, b :: c.pageLabel == a + " / " + b && ParseInt(a) == Some(w.active + 1) && ParseInt(b) == Some(|w.sessions|)
  {
    var a := NatToString((w.active + 1) as nat);
    var b := NatToString(|w.sessions|);
    ParseIntOfDigits(a);
    ParseIntOfDigits(b);
    assert ControlsOf(w).pageLabel == a + " / " + b;
  }

  /** The scrollbar's value always lies in the range the refresh gives it. */
  lemma ScrollInRange(w: Window)
    ensures var r := UpdateUi(w);
            0 <= r.scroll <= ControlsOf(r).scrollMax
  {
  }

  /**
    `set_active_session(index, scroll_to_widget)`: an index outside the list
    changes nothing, except that with no pages at all the active index
    becomes -1. A valid index becomes the active page, the outline's default
    page becomes its number, and the controls are refreshed. The scrollbar is
    moved to the index under a guard that keeps the scroll handler out; the
    refresh then puts it on the active index whatever `scrollTo` said.
  */
  function SetActiveSession(w: Window, index: int, scrollTo: bool): (r: Window)
    ensures r.sessions == w.sessions && r.viewers == w.viewers && r.dirty == w.dirty
    ensures 0 <= index < |w.sessions| ==>
              r.active == index && r.newItemPage == index + 1 && r.scroll == index
              && r.pageInput == NatToString((index + 1) as nat)
    ensures !(0 <= index < |w.sessions|) && |w.sessions| > 0 ==> r == w
    ensures |w.sessions| == 0 ==> r.active == -1 && r.scroll == 0 && r.pageInput == ""
  {
    if !(0 <= index < |w.sessions|) then
      if |w.sessions| == 0 then UpdateUi(w.(active := -1)) else w
    else
      var w1 := w.(active := index);
      var w2 := if scrollTo then w1.(scroll := index) else w1;
      UpdateUi(w2.(newItemPage := index + 1))
  }

  /** `on_scroll(value)`: a user scroll to another valid page activates it,
      without moving the scrollbar again; a programmatic one is ignored. */
  function OnScroll(w: Window, value: int, programmatic: bool): (r: Window)
    ensures programmatic || !(0 <= value < |w.sessions|) || w.active == value ==> r == w
    ensures !programmatic && 0 <= value < |w.sessions| ==> r.active == value
  {
    if programmatic then w
    else if 0 <= value < |w.sessions| && w.active != value then SetActiveSession(w, value, false)
    else w
  }

  /** `next_page`: from any page but the last, the next one. */
  function NextPage(w: Window): (r: Window)
    ensures r.sessions == w.sessions && r.viewers == w.viewers
    ensures -1 <= w.active < |w.sessions| - 1 ==> r.active == w.active + 1
    ensures w.active >= |w.sessions| - 1 ==> r == w
  {
    if w.active < |w.sessions| - 1 then SetActiveSession(w, w.active + 1, true) else w
  }

  /** `previous_page`: from any page but the first, the one before. */
  function PreviousPage(w: Window): (r: Window)
    ensures r.sessions == w.sessions && r.viewers == w.viewers
    ensures 0 < w.active <= |w.sessions| ==> r.active == w.active - 1
    ensures w.active <= 0 ==> r == w
  {
    if w.active > 0 then SetActiveSession(w, w.active - 1, true) else w
  }

  /** With the active index in `[-1, n)`, the Next and Previous buttons are
      enabled exactly when pressing them moves to another page, and the move
      keeps the index in range. */
  lemma ButtonsMatchNavigation(w: Window)
    requires -1 <= w.active < |w.sessions|
    ensures ControlsOf(w).nextEnabled <==> NextPage(w).active != w.active
    ensures ControlsOf(w).prevEnabled <==> PreviousPage(w).active != w.active
    ensures 0 <= NextPage(w).active < |w.sessions| || NextPage(w) == w
    ensures 0 <= PreviousPage(w).active < |w.sessions| || PreviousPage(w) == w
  {
  }

  /**
    `go_to_page_from_input(text)`: with pages, a page number `p` in `1..n`
    activates index `p - 1`; any other text, or a number out of range, puts
    the current page number back in the box.
  */
  function GoToPageFromInput(w: Window, text: string): (r: Window)
    ensures r.sessions == w.sessions && r.viewers == w.viewers
    ensures |w.sessions| == 0 ==> r == w
    ensures |w.sessions| > 0 && ParseInt(text).Some? && 1 <= ParseInt(text).value <= |w.sessions| ==>
              r.active == ParseInt(text).value - 1 && r.newItemPage == ParseInt(text).value
    ensures |w.sessions| > 0 && !(ParseInt(text).Some? && 1 <= ParseInt(text).value <= |w.sessions|) ==>
              r == w.(pageInput := IntToString(w.active + 1))
  {
    if |w.sessions| == 0 then w
    else
      match ParseInt(text)
      case Some(p) =>
        if 1 <= p <= |w.sessions| then SetActiveSession(w, p - 1, true)
        else w.(pageInput := IntToString(w.active + 1))
      case None => w.(pageInput := IntToString(w.active + 1))
  }

  /** Typing the number a page shows goes to that page. */
  lemma GoToShownPage(w: Window, k: nat)
    requires k < |w.sessions|
    ensures GoToPageFromInput(w, NatToString(k + 1)).active == k
  {
    ParseIntOfDigits(NatToString(k + 1));
  }

  // ------------------------------------------------------------ page deletion

  /** Python's `list.pop(i)` for a valid index. */
  function RemoveAt<T>(xs: seq<T>, i: nat): (ys: seq<T>)
    requires i < |xs|
    ensures |ys| == |xs| - 1
    ensures forall k :: 0 <= k < i ==> ys[k] == xs[k]
    ensures forall k :: i <= k < |ys| ==> ys[k] == xs[k + 1]
  {
    xs[..i] + xs[i + 1..]
  }

  /** Python's `list.insert(i, x)`: a negative index counts from the end and
      stops at the front, one past the end appends. */
  function InsertAt<T>(xs: seq<T>, i: int, x: T): (ys: seq<T>)
    ensures |ys| == |xs| + 1
    ensures 0 <= i <= |xs| ==> ys[i] == x && ys[..i] == xs[..i] && ys[i + 1..] == xs[i..]
    ensures i > |xs| ==> ys == xs + [x]
  {
    var j := if i < 0 then (if i + |xs| < 0 then 0 else i + |xs|) else if i > |xs| then |xs| else i;
    xs[..j] + [x] + xs[j..]
  }

  lemma InsertRemoved<T>(xs: seq<T>, i: nat)
    requires i < |xs|
    ensures InsertAt(RemoveAt(xs, i), i, xs[i]) == xs
  {
    var ys := RemoveAt(xs, i);
    assert ys[..i] == xs[..i];
    assert ys[i..] == xs[i + 1..];
    assert xs == xs[..i] + [xs[i]] + xs[i + 1..];
  }

  /** A page deletion: the session, its viewer, and the index it had when
      the deletion was asked for. */
  datatype DeletePage = DeletePage(session: SessionRef, viewer: ViewerRef, index: int)

  /** Popping an element of a list without repeats removes exactly it. */
  lemma RemoveAtElements<T>(xs: seq<T>, i: nat)
    requires i < |xs|
    requires forall a, b :: 0 <= a < b < |xs| ==> xs[a] != xs[b]
    ensures (set x | x in RemoveAt(xs, i)) == (set x | x in xs) - {xs[i]}
    ensures forall a, b :: 0 <= a < b < |RemoveAt(xs, i)| ==> RemoveAt(xs, i)[a] != RemoveAt(xs, i)[b]
  {
    var ys := RemoveAt(xs, i);
    forall x | x in xs && x != xs[i] ensures x in ys {
      var k :| 0 <= k < |xs| && xs[k] == x;
      if k < i { assert ys[k] == x; } else { assert ys[k - 1] == x; }
    }
    forall x | x in ys ensures x in xs && x != xs[i] {
      var k :| 0 <= k < |ys| && ys[k] == x;
      if k < i { assert xs[k] == x; } else { assert xs[k + 1] == x; }
    }
  }

  /**
    Redo of a page deletion: nothing if the session is gone already;
    otherwise the session and its viewer leave the lists at the session's
    current index, the page now at that index (or the last page) becomes
    active, or -1 when no page is left, and the project is marked changed.
  */
  function DeletePageRedo(w: Window, c: DeletePage): (r: Window)
    requires Valid(w)
    ensures Valid(r)
    ensures c.session !in w.sessions ==> r == w
    ensures c.session in w.sessions ==>
              && (set s | s in r.sessions) == (set s | s in w.sessions) - {c.session}
              && |r.sessions| + 1 == |w.sessions| && r.dirty
              && (|r.sessions| > 0 ==> 0 <= r.active < |r.sessions|)
              && (|r.sessions| == 0 ==> r.active == -1)
    ensures c.session in w.sessions ==>
              var i := Ids.IndexOf(w.sessions, c.session).value;
              && r.sessions == RemoveAt(w.sessions, i) && r.viewers == RemoveAt(w.viewers, i)
              && r.active == (if i < |r.sessions| then i else |r.sessions| - 1)
  {
    match Ids.IndexOf(w.sessions, c.session)
    case None => w
    case Some(i) =>
      RemoveAtElements(w.sessions, i);
      var w1 := w.(sessions := RemoveAt(w.sessions, i), viewers := RemoveAt(w.viewers, i));
      var n := |w1.sessions|;
      var ni := if i >= n then n - 1 else i;
      var w2 := if ni >= 0 then SetActiveSession(w1, ni, true) else UpdateUi(w1.(active := -1));
      w2.(dirty := true)
  }

  /** Undo of a page deletion: the session and its viewer go back in at the
      recorded index, that page is activated, and the project is marked
      changed. */
  function DeletePageUndo(w: Window, c: DeletePage): (r: Window)
    ensures |r.sessions| == |w.sessions| + 1 && |r.viewers| == |w.viewers| + 1
    ensures c.session in r.sessions && r.dirty
    ensures 0 <= c.index <= |w.sessions| ==>
              r.sessions == InsertAt(w.sessions, c.index, c.session)
              && r.viewers == InsertAt(w.viewers, c.index, c.viewer)
              && r.active == c.index
  {
    var w1 := w.(sessions := InsertAt(w.sessions, c.index, c.session),
                 viewers := InsertAt(w.viewers, c.index, c.viewer));
    SetActiveSession(w1, c.index, true).(dirty := true)
  }

  /** The deletion `delete_current_page` builds after a "Yes": the active
      session, its viewer and its index, taken when the user asks. */
  function DeleteRequest(w: Window, confirmed: bool): (c: Option<DeletePage>)
    ensures c.Some? <==> confirmed && ActiveSession(w).Some?
    ensures c.Some? ==> c.value == DeletePage(w.sessions[w.active], w.viewers[w.active], w.active)
    requires Valid(w)
  {
    if ActiveSession(w).Some? && confirmed then Some(DeletePage(w.sessions[w.active], w.viewers[w.active], w.active))
    else None
  }

  /** `delete_current_page`: a confirmed deletion is run and pushed onto the
      project's stack; the page's own stack is not involved. */
  function DeleteCurrentPage(w: Window, project: Stack<DeletePage>, confirmed: bool): (r: (Window, Stack<DeletePage>))
    requires Valid(w) && project.Valid()
    ensures Valid(r.0) && r.1.Valid()
    ensures DeleteRequest(w, confirmed).None? ==> r == (w, project)
    ensures DeleteRequest(w, confirmed).Some? ==>
              r.1 == Push(project, DeleteRequest(w, confirmed).value)
              && r.0 == DeletePageRedo(w, DeleteRequest(w, confirmed).value)
  {
    match DeleteRequest(w, confirmed)
    case None => (w, project)
    case Some(c) => (DeletePageRedo(w, c), Push(project, c))
  }

  /** Deleting the active page and undoing it puts both lists back as they
      were, with that page active again. */
  lemma DeletePageRoundTrip(w: Window)
    requires Valid(w) && ActiveSession(w).Some?
    ensures var c := DeleteRequest(w, true).value;
            var u := DeletePageUndo(DeletePageRedo(w, c), c);
            && u.sessions == w.sessions && u.viewers == w.viewers
            && u.active == w.active && u.dirty
            && ActiveSession(u) == ActiveSession(w)
  {
    var c := DeleteRequest(w, true).value;
    var i := w.active;
    assert Ids.IndexOf(w.sessions, c.session) == Some(i);
    var r := DeletePageRedo(w, c);
    assert r.sessions == RemoveAt(w.sessions, i) && r.viewers == RemoveAt(w.viewers, i);
    InsertRemoved(w.sessions, i);
    InsertRemoved(w.viewers, i);
  }
}
