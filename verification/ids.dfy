/**
  Hotspot identifiers. Each page's editing session keeps a counter; a new
  hotspot on page `g` of project `p` is named `p_p<g>_h<n>` with the next
  counter value `n`. No identifier is made, and no counter value used, when
  the project has no identifier yet or the session is not among the
  project's pages.
*/
module Ids {
  import opened Options
  import opened Text

  /** The session counter hands out its current value and moves on by one. */
  function NextHotspotId(counter: nat): (r: (nat, nat))
    ensures r.0 == counter && r.1 > r.0
  {
    (counter, counter + 1)
  }

  /** The identifier text of hotspot number `n` on page `page`. */
  function FormatId(projectId: string, page: nat, n: nat): string {
    projectId + "_p" + NatToString(page) + "_h" + NatToString(n)
  }

  /** Where a new identifier would come from: the project identifier and the
      page index of the session, if the session is one of the pages. */
  datatype IdContext = IdContext(projectId: string, page: Option<nat>) {
    predicate CanName() {
      |projectId| > 0 && page.Some?
    }
  }

  /** The first index of `x` in `xs` (Python's `list.index`), or `None` for
      the `ValueError`. */
  function IndexOf<T(==)>(xs: seq<T>, x: T): (r: Option<nat>)
    ensures r.Some? <==> x in xs
    ensures r.Some? ==> r.value < |xs| && xs[r.value] == x
    ensures r.Some? ==> forall j :: 0 <= j < r.value ==> xs[j] != x
  {
    if |xs| == 0 then None
    else if xs[0] == x then Some(0)
    else match IndexOf(xs[1..], x)
      case Some(i) => Some(i + 1)
      case None => None
  }

  /** The context for a session (or none) among the project's sessions. */
  function ContextFor<S(==)>(projectId: string, sessions: seq<S>, session: Option<S>): (c: IdContext)
    ensures c.projectId == projectId
    ensures c.page.Some? <==> session.Some? && session.value in sessions
    ensures c.page.Some? ==> c.page.value < |sessions| && sessions[c.page.value] == session.value
  {
    match session
    case None => IdContext(projectId, None)
    case Some(s) => IdContext(projectId, IndexOf(sessions, s))
  }

  /**
    The identifier for a new hotspot and the session counter afterwards. The
    counter is consumed only when an identifier is made.
  */
  function GenerateId(ctx: IdContext, counter: nat): (r: (Option<string>, nat))
    ensures r.0.Some? <==> ctx.CanName()
    ensures r.0.Some? ==> r.0.value == FormatId(ctx.projectId, ctx.page.value, counter) && r.1 == counter + 1
    ensures r.0.None? ==> r.1 == counter
  {
    if !ctx.CanName() then (None, counter)
    else
      var (n, next) := NextHotspotId(counter);
      (Some(FormatId(ctx.projectId, ctx.page.value, n)), next)
  }

  /** The main window's identifier generator, for a session given by reference. */
  function GenerateNewHotspotId<S(==)>(projectId: string, sessions: seq<S>, session: Option<S>, counter: nat)
    : (r: (Option<string>, nat))
    ensures r.0.Some? <==> |projectId| > 0 && session.Some? && session.value in sessions
    ensures r.0.Some? ==> exists g :: 0 <= g < |sessions| && sessions[g] == session.value
                                     && r.0.value == FormatId(projectId, g, counter)
    ensures r.1 == if r.0.Some? then counter + 1 else counter
  {
    GenerateId(ContextFor(projectId, sessions, session), counter)
  }

  /** Digits, a non-digit separator and a tail split back into their parts. */
  lemma {:induction false} SplitAtSeparator(a1: string, b1: string, a2: string, b2: string, sep: string)
    requires AllDigits(a1) && AllDigits(a2)
    requires |sep| > 0 && !IsDigit(sep[0])
    requires a1 + sep + b1 == a2 + sep + b2
    ensures a1 == a2 && b1 == b2
  {
    var s1 := a1 + sep + b1;
    var s2 := a2 + sep + b2;
    if |a1| < |a2| {
      ShorterDigitsDiffer(a1, b1, a2, b2, sep);
      assert false;
    } else if |a2| < |a1| {
      ShorterDigitsDiffer(a2, b2, a1, b1, sep);
      assert false;
    }
    assert a1 == s1[..|a1|] == s2[..|a2|] == a2;
    assert b1 == s1[|a1| + |sep|..] == s2[|a2| + |sep|..] == b2;
  }

  lemma ShorterDigitsDiffer(a1: string, b1: string, a2: string, b2: string, sep: string)
    requires AllDigits(a2) && |sep| > 0 && !IsDigit(sep[0]) && |a1| < |a2|
    ensures a1 + sep + b1 != a2 + sep + b2
  {
    assert (a1 + sep + b1)[|a1|] == sep[0];
    assert (a2 + sep + b2)[|a1|] == a2[|a1|];
  }

  /** Within one project, an identifier names exactly one page and counter value. */
  lemma FormatIdInjective(projectId: string, g1: nat, n1: nat, g2: nat, n2: nat)
    requires FormatId(projectId, g1, n1) == FormatId(projectId, g2, n2)
    ensures g1 == g2 && n1 == n2
  {
    var s1 := FormatId(projectId, g1, n1);
    var s2 := FormatId(projectId, g2, n2);
    var t1 := NatToString(g1) + "_h" + NatToString(n1);
    var t2 := NatToString(g2) + "_h" + NatToString(n2);
    assert s1 == projectId + "_p" + t1;
    assert s2 == projectId + "_p" + t2;
    assert t1 == s1[|projectId| + 2..];
    assert t2 == s2[|projectId| + 2..];
    SplitAtSeparator(NatToString(g1), NatToString(n1), NatToString(g2), NatToString(n2), "_h");
    NatToStringInjective(g1, g2);
    NatToStringInjective(n1, n2);
  }

  /** The counter values a run of `k` successful generations hands out. */
  function Generated(ctx: IdContext, counter: nat, k: nat): (ids: seq<Option<string>>)
    ensures |ids| == k
    decreases k
  {
    if k == 0 then []
    else
      var (id, next) := GenerateId(ctx, counter);
      [id] + Generated(ctx, next, k - 1)
  }

  /** `k` generations in a row name hotspots `counter`, `counter + 1`, ...
      on the session's page, all different. */
  lemma {:induction false} GeneratedIds(ctx: IdContext, counter: nat, k: nat)
    requires ctx.CanName()
    ensures forall i :: 0 <= i < k ==>
              Generated(ctx, counter, k)[i] == Some(FormatId(ctx.projectId, ctx.page.value, counter + i))
    decreases k
  {
    if k > 0 {
      GeneratedIds(ctx, counter + 1, k - 1);
    }
  }

  lemma GeneratedIdsDistinct(ctx: IdContext, counter: nat, k: nat, i: nat, j: nat)
    requires ctx.CanName() && i < k && j < k && i != j
    ensures Generated(ctx, counter, k)[i] != Generated(ctx, counter, k)[j]
  {
    GeneratedIds(ctx, counter, k);
    if Generated(ctx, counter, k)[i] == Generated(ctx, counter, k)[j] {
      FormatIdInjective(ctx.projectId, ctx.page.value, counter + i, ctx.page.value, counter + j);
    }
  }
}
