/** The `list` command: fold every repository's milestones into one record
    per title, warn about repositories that disagree with the first one seen
    or lack a title, and render one line per title. */
module Aggregate {
  import opened Types
  import opened Strings
  import opened Repos

  /** One milestone as found in one repository. */
  datatype Occ = Occ(repo: RepoName, m: Milestone)

  /** The record kept per title: the first state and due date seen, and the
      repositories that have a milestone with this title. */
  datatype Agg = Agg(state: string, dueOn: Timestamp, repos: set<RepoName>)

  /** The aggregation so far: the per-title records and the divergence
      warnings raised while building them. */
  datatype Tally = Tally(view: map<string, Agg>, warnings: seq<Warning>)

  // ---------------------------------------------------------------------
  // The fold

  /** Takes one more milestone into the tally. A title already present keeps
      its state and due date and only gains the repository; a different state
      is reported first, and a different due date only when the states agree. */
  function Absorb(tally: Tally, o: Occ): Tally
  {
    var title := o.m.title;
    if title in tally.view then
      var e := tally.view[title];
      var w :=
        if e.state != o.m.state then [StateDiffers(title, o.repo, o.m.state, e.state, e.repos)]
        else if e.dueOn != o.m.dueOn then [DueDiffers(title, o.repo, o.m.dueOn, e.dueOn, e.repos)]
        else [];
      Tally(tally.view[title := e.(repos := e.repos + {o.repo})], tally.warnings + w)
    else
      Tally(tally.view[title := Agg(o.m.state, o.m.dueOn, {o.repo})], tally.warnings)
  }

  /** The tally after taking in every occurrence, in order. */
  function FoldAll(occs: seq<Occ>): Tally
  {
    if occs == [] then Tally(map[], [])
    else Absorb(FoldAll(occs[..|occs| - 1]), occs[|occs| - 1])
  }

  lemma FoldAllSnoc(occs: seq<Occ>, o: Occ)
    ensures FoldAll(occs + [o]) == Absorb(FoldAll(occs), o)
  {
    assert (occs + [o])[..|occs|] == occs;
  }

  // ---------------------------------------------------------------------
  // What the fold computes, stated without the accumulator

  function TitlesOf(occs: seq<Occ>): set<string>
  {
    set i | 0 <= i < |occs| :: occs[i].m.title
  }

  /** The repositories in which `title` occurs. */
  function ReposWith(occs: seq<Occ>, title: string): set<RepoName>
  {
    set i | 0 <= i < |occs| && occs[i].m.title == title :: occs[i].repo
  }

  /** The position of the first occurrence of `title`, or -1. */
  function FirstIndex(occs: seq<Occ>, title: string): (k: int)
    ensures -1 <= k < |occs|
    ensures k == -1 <==> forall i :: 0 <= i < |occs| ==> occs[i].m.title != title
    ensures 0 <= k ==> occs[k].m.title == title && forall j :: 0 <= j < k ==> occs[j].m.title != title
    decreases |occs|
  {
    if occs == [] then -1
    else if occs[0].m.title == title then 0
    else
      var k := FirstIndex(occs[1..], title);
      assert forall i :: 1 <= i < |occs| ==> occs[i] == occs[1..][i - 1];
      if k == -1 then -1 else k + 1
  }

  lemma FirstIndexSnoc(occs: seq<Occ>, o: Occ, title: string)
    ensures FirstIndex(occs + [o], title) ==
      if FirstIndex(occs, title) >= 0 then FirstIndex(occs, title)
      else if o.m.title == title then |occs| else -1
  {
    var s := occs + [o];
    var k := FirstIndex(occs, title);
    var k' := FirstIndex(s, title);
    assert forall i :: 0 <= i < |occs| ==> s[i] == occs[i];
    assert s[|occs|] == o;
    if k >= 0 {
      assert s[k].m.title == title;
    }
  }

  lemma TitlesSnoc(p: seq<Occ>, o: Occ)
    ensures TitlesOf(p + [o]) == TitlesOf(p) + {o.m.title}
  {
    var occs := p + [o];
    assert forall i :: 0 <= i < |p| ==> occs[i] == p[i];
    assert occs[|p|] == o;
    forall t | t in TitlesOf(occs) ensures t in TitlesOf(p) + {o.m.title} {
      var i :| 0 <= i < |occs| && occs[i].m.title == t;
      if i < |p| {
        assert p[i].m.title == t;
      }
    }
  }

  lemma ReposWithSnoc(p: seq<Occ>, o: Occ, t: string)
    ensures ReposWith(p + [o], t) == ReposWith(p, t) + (if o.m.title == t then {o.repo} else {})
  {
    var occs := p + [o];
    assert forall i :: 0 <= i < |p| ==> occs[i] == p[i];
    assert occs[|p|] == o;
    forall r | r in ReposWith(occs, t) ensures r in ReposWith(p, t) + (if o.m.title == t then {o.repo} else {}) {
      var i :| 0 <= i < |occs| && occs[i].m.title == t && occs[i].repo == r;
      if i < |p| {
        assert p[i].m.title == t && p[i].repo == r;
      }
    }
  }

  /** The fold's titles are exactly the titles that occur. */
  lemma {:induction false} FoldTitles(occs: seq<Occ>)
    ensures FoldAll(occs).view.Keys == TitlesOf(occs)
  {
    if occs != [] {
      var p, o := occs[..|occs| - 1], occs[|occs| - 1];
      assert occs == p + [o];
      FoldTitles(p);
      TitlesSnoc(p, o);
    }
  }

  /** Each title's repositories are exactly those in which it occurs. */
  lemma {:induction false} FoldRepos(occs: seq<Occ>)
    ensures forall t :: t in FoldAll(occs).view ==> FoldAll(occs).view[t].repos == ReposWith(occs, t)
  {
    if occs != [] {
      var p, o := occs[..|occs| - 1], occs[|occs| - 1];
      assert occs == p + [o];
      FoldRepos(p);
      FoldTitles(p);
      forall t | t in FoldAll(occs).view ensures FoldAll(occs).view[t].repos == ReposWith(occs, t) {
        ReposWithSnoc(p, o, t);
        if t !in FoldAll(p).view {
          assert ReposWith(p, t) == {};
        }
      }
    }
  }

  /** A title's state and due date are those of its first occurrence: later
      occurrences never overwrite them. */
  lemma {:induction false} FoldCanonical(occs: seq<Occ>)
    ensures forall t :: t in FoldAll(occs).view ==>
      0 <= FirstIndex(occs, t)
      && FoldAll(occs).view[t].state == occs[FirstIndex(occs, t)].m.state
      && FoldAll(occs).view[t].dueOn == occs[FirstIndex(occs, t)].m.dueOn
  {
    if occs != [] {
      var p, o := occs[..|occs| - 1], occs[|occs| - 1];
      assert occs == p + [o];
      FoldCanonical(p);
      FoldTitles(p);
      forall t | t in FoldAll(occs).view
        ensures 0 <= FirstIndex(occs, t)
        ensures FoldAll(occs).view[t].state == occs[FirstIndex(occs, t)].m.state
        ensures FoldAll(occs).view[t].dueOn == occs[FirstIndex(occs, t)].m.dueOn
      {
        FirstIndexSnoc(p, o, t);
        if t in FoldAll(p).view {
          assert t in TitlesOf(p);
          var f := FirstIndex(p, t);
          assert occs[f] == p[f];
        }
      }
    }
  }

  /** The divergence warning that the occurrence `o` draws, given the
      occurrences before it: none for a title's first occurrence; a state
      warning when its state differs from the first occurrence's; otherwise a
      due-date warning when its due date differs. */
  function DivergenceOf(earlier: seq<Occ>, o: Occ): seq<Warning>
  {
    var t := o.m.title;
    var f := FirstIndex(earlier, t);
    if f < 0 then []
    else
      var first := earlier[f].m;
      if first.state != o.m.state then [StateDiffers(t, o.repo, o.m.state, first.state, ReposWith(earlier, t))]
      else if first.dueOn != o.m.dueOn then [DueDiffers(t, o.repo, o.m.dueOn, first.dueOn, ReposWith(earlier, t))]
      else []
  }

  /** Every occurrence's divergence warnings, in order. */
  function Divergences(occs: seq<Occ>): seq<Warning>
  {
    if occs == [] then []
    else Divergences(occs[..|occs| - 1]) + DivergenceOf(occs[..|occs| - 1], occs[|occs| - 1])
  }

  /** The warnings the fold raises are exactly the per-occurrence divergences
      measured against each title's first occurrence, listing the repositories
      that had the title before. */
  lemma {:induction false} FoldWarnings(occs: seq<Occ>)
    ensures FoldAll(occs).warnings == Divergences(occs)
  {
    if occs != [] {
      var p := occs[..|occs| - 1];
      FoldWarnings(p);
      FoldTitles(p);
      FoldRepos(p);
      FoldCanonical(p);
    }
  }

  /** A title's first occurrence raises no warning and every later one at
      most one, so there are no more warnings than repeated occurrences. */
  lemma {:induction false} FoldWarningBound(occs: seq<Occ>)
    ensures |FoldAll(occs).warnings| + |FoldAll(occs).view| <= |occs|
  {
    if occs != [] {
      FoldWarningBound(occs[..|occs| - 1]);
    }
  }

  lemma SameElements(p: seq<Occ>, q: seq<Occ>)
    requires multiset(p) == multiset(q)
    ensures forall o :: o in p <==> o in q
  {
    forall o ensures o in p <==> o in q {
      assert o in p <==> o in multiset(p);
      assert o in q <==> o in multiset(q);
    }
  }

  /** Which titles exist and which repositories carry each do not depend on
      the order the repositories are visited in. */
  lemma FoldOrderIndependent(p: seq<Occ>, q: seq<Occ>)
    requires multiset(p) == multiset(q)
    ensures FoldAll(p).view.Keys == FoldAll(q).view.Keys
    ensures forall t :: t in FoldAll(p).view ==> FoldAll(p).view[t].repos == FoldAll(q).view[t].repos
  {
    FoldTitles(p);
    FoldTitles(q);
    FoldRepos(p);
    FoldRepos(q);
    SameElements(p, q);
    forall t | t in TitlesOf(p) ensures t in TitlesOf(q) {
      var i :| 0 <= i < |p| && p[i].m.title == t;
      assert p[i] in p;
      var j :| 0 <= j < |q| && q[j] == p[i];
    }
    forall t | t in TitlesOf(q) ensures t in TitlesOf(p) {
      var j :| 0 <= j < |q| && q[j].m.title == t;
      assert q[j] in q;
      var i :| 0 <= i < |p| && p[i] == q[j];
    }
    forall t | t in FoldAll(p).view ensures ReposWith(p, t) == ReposWith(q, t) {
      forall r | r in ReposWith(p, t) ensures r in ReposWith(q, t) {
        var i :| 0 <= i < |p| && p[i].m.title == t && p[i].repo == r;
        assert p[i] in p;
        var j :| 0 <= j < |q| && q[j] == p[i];
      }
      forall r | r in ReposWith(q, t) ensures r in ReposWith(p, t) {
        var j :| 0 <= j < |q| && q[j].m.title == t && q[j].repo == r;
        assert q[j] in q;
        var i :| 0 <= i < |p| && p[i] == q[j];
      }
    }
  }

  /** The canonical state, however, is whichever the first visited repository
      has: visiting two repositories in the other order changes it. */
  lemma CanonicalDependsOnOrder()
    ensures var a := Occ("org/a", Milestone("0.20", 1, "open", 0));
      var b := Occ("org/b", Milestone("0.20", 7, "closed", 0));
      FoldAll([a, b]).view["0.20"].state == "open" && FoldAll([b, a]).view["0.20"].state == "closed"
  {
    var a := Occ("org/a", Milestone("0.20", 1, "open", 0));
    var b := Occ("org/b", Milestone("0.20", 7, "closed", 0));
    FoldAllSnoc([a], b);
    FoldAllSnoc([], a);
    FoldAllSnoc([b], a);
    FoldAllSnoc([], b);
  }

  // ---------------------------------------------------------------------
  // Occurrences in the listed repositories

  /** A repository's milestones, each paired with the repository. */
  function OccsIn(r: RepoName, ms: seq<Milestone>): (occs: seq<Occ>)
  {
    seq(|ms|, i requires 0 <= i < |ms| => Occ(r, ms[i]))
  }

  /** Every milestone of every successfully listed repository, repository by
      repository, in listing order. */
  function Occurrences(repos: seq<RepoName>, listing: RepoName -> Listing): seq<Occ>
  {
    if repos == [] then []
    else
      var last := repos[|repos| - 1];
      Occurrences(repos[..|repos| - 1], listing)
        + (match listing(last) case Listed(ms) => OccsIn(last, ms) case ListingFailed => [])
  }

  /** The position of the first repository whose listing fails, or the
      number of repositories when none does. */
  function FirstUnlisted(repos: seq<RepoName>, listing: RepoName -> Listing): (k: nat)
    ensures k <= |repos|
    ensures k < |repos| ==> listing(repos[k]).ListingFailed?
    ensures forall j :: 0 <= j < k ==> listing(repos[j]).Listed?
    decreases |repos|
  {
    if repos == [] then 0
    else if listing(repos[0]).ListingFailed? then 0
    else
      var k := FirstUnlisted(repos[1..], listing);
      assert forall j :: 1 <= j < |repos| ==> repos[j] == repos[1..][j - 1];
      k + 1
  }

  /** Lists every repository's milestones and folds them into the tally,
      stopping at the first repository whose listing fails. */
  method FoldListings(repos: seq<RepoName>, listing: RepoName -> Listing)
    returns (status: Status, view: map<string, Agg>, warnings: seq<Warning>)
    ensures var k := FirstUnlisted(repos, listing);
      && Tally(view, warnings) == FoldAll(Occurrences(repos[..k], listing))
      && status == if k < |repos| then Failure(ListMilestonesFailed(repos[k])) else Success
  {
    view, warnings := map[], [];
    for i := 0 to |repos|
      invariant forall j :: 0 <= j < i ==> listing(repos[j]).Listed?
      invariant Tally(view, warnings) == FoldAll(Occurrences(repos[..i], listing))
    {
      var r := repos[i];
      var l := listing(r);
      if l.ListingFailed? {
        FirstUnlistedAt(repos, listing, i);
        return Failure(ListMilestonesFailed(r)), view, warnings;
      }
      assert Occurrences(repos[..i + 1], listing) == Occurrences(repos[..i], listing) + OccsIn(r, l.milestones) by {
        assert repos[..i + 1][..i] == repos[..i];
      }
      view, warnings := FoldRepo(view, warnings, r, l.milestones, Occurrences(repos[..i], listing));
    }
    assert repos[..|repos|] == repos;
    FirstUnlistedAt(repos, listing, |repos|);
    status := Success;
  }

  lemma FirstUnlistedAt(repos: seq<RepoName>, listing: RepoName -> Listing, i: nat)
    requires i <= |repos|
    requires forall j :: 0 <= j < i ==> listing(repos[j]).Listed?
    requires i < |repos| ==> listing(repos[i]).ListingFailed?
    ensures FirstUnlisted(repos, listing) == i
  {
    var k := FirstUnlisted(repos, listing);
    assert k < |repos| ==> listing(repos[k]).ListingFailed?;
  }

  /** Folds one repository's milestones into the tally, in listing order. */
  method FoldRepo(view0: map<string, Agg>, warnings0: seq<Warning>, r: RepoName, ms: seq<Milestone>, ghost before: seq<Occ>)
    returns (view: map<string, Agg>, warnings: seq<Warning>)
    requires Tally(view0, warnings0) == FoldAll(before)
    ensures Tally(view, warnings) == FoldAll(before + OccsIn(r, ms))
  {
    view, warnings := view0, warnings0;
    assert before + OccsIn(r, ms[..0]) == before;
    for j := 0 to |ms|
      invariant Tally(view, warnings) == FoldAll(before + OccsIn(r, ms[..j]))
    {
      var m := ms[j];
      ghost var occs := before + OccsIn(r, ms[..j]);
      assert before + OccsIn(r, ms[..j + 1]) == occs + [Occ(r, m)];
      FoldAllSnoc(occs, Occ(r, m));
      var t, s, d := m.title, m.state, m.dueOn;
      if t in view {
        var exist := view[t];
        if exist.state != s {
          warnings := warnings + [StateDiffers(t, r, s, exist.state, exist.repos)];
        } else if exist.dueOn != d {
          warnings := warnings + [DueDiffers(t, r, d, exist.dueOn, exist.repos)];
        }
        view := view[t := exist.(repos := exist.repos + {r})];
      } else {
        view := view[t := Agg(s, d, {r})];
      }
    }
    assert ms[..|ms|] == ms;
  }

  // ---------------------------------------------------------------------
  // Completeness scan

  /** `missing` holds, for every title and every repository position whose
      repository lacks that title, one missing-repository warning, and
      nothing else. */
  ghost predicate MissingReported(missing: seq<Warning>, view: map<string, Agg>, repos: seq<RepoName>)
  {
    && (forall w :: w in missing ==> w.MissingFrom?)
    && MissingCounted(missing, view, repos, view.Keys)
  }

  /** The warnings in `missing` for the titles in `done` are complete. */
  ghost predicate MissingCounted(missing: seq<Warning>, view: map<string, Agg>, repos: seq<RepoName>, done: set<string>)
  {
    forall t, r :: multiset(missing)[MissingFrom(t, r)] == MissingCount(view, repos, done, t, r)
  }

  ghost function MissingCount(view: map<string, Agg>, repos: seq<RepoName>, done: set<string>, t: string, r: RepoName): nat
  {
    if t in view && t in done && r !in view[t].repos then multiset(repos)[r] else 0
  }

  ghost function Absent(t: string, present: set<RepoName>, repos: seq<RepoName>, t': string, r: RepoName): nat
  {
    if t' == t && r !in present then multiset(repos)[r] else 0
  }

  /** The second pass: for every title (in no particular order) and every
      repository, warn when the repository lacks the title. */
  method ScanMissing(view: map<string, Agg>, repos: seq<RepoName>) returns (missing: seq<Warning>)
    ensures MissingReported(missing, view, repos)
  {
    missing := [];
    var remaining := view.Keys;
    while remaining != {}
      invariant remaining <= view.Keys
      invariant forall w :: w in missing ==> w.MissingFrom?
      invariant MissingCounted(missing, view, repos, view.Keys - remaining)
      decreases remaining
    {
      var t :| t in remaining;
      ghost var done := view.Keys - remaining;
      var ws := MissingFor(t, view[t].repos, repos);
      MissingStep(missing, ws, view, repos, done, t);
      missing := missing + ws;
      remaining := remaining - {t};
      assert view.Keys - remaining == done + {t};
    }
  }

  /** The missing-repository warnings for title `t`, present in `present`:
      one per position of `repos` holding a repository outside `present`. */
  method MissingFor(t: string, present: set<RepoName>, repos: seq<RepoName>) returns (ws: seq<Warning>)
    ensures forall w :: w in ws ==> w.MissingFrom?
    ensures forall t', r :: multiset(ws)[MissingFrom(t', r)] == Absent(t, present, repos, t', r)
  {
    ws := [];
    for k := 0 to |repos|
      invariant forall w :: w in ws ==> w.MissingFrom?
      invariant forall t', r :: multiset(ws)[MissingFrom(t', r)] == Absent(t, present, repos[..k], t', r)
    {
      assert repos[..k + 1] == repos[..k] + [repos[k]];
      if repos[k] !in present {
        ws := ws + [MissingFrom(t, repos[k])];
      }
    }
    assert repos[..|repos|] == repos;
  }

  lemma MissingStep(missing: seq<Warning>, ws: seq<Warning>, view: map<string, Agg>, repos: seq<RepoName>,
                    done: set<string>, t: string)
    requires t in view && t !in done
    requires MissingCounted(missing, view, repos, done)
    requires forall t', r :: multiset(ws)[MissingFrom(t', r)] == Absent(t, view[t].repos, repos, t', r)
    ensures MissingCounted(missing + ws, view, repos, done + {t})
  {
    forall t', r ensures multiset(missing + ws)[MissingFrom(t', r)] == MissingCount(view, repos, done + {t}, t', r) {
      assert multiset(missing + ws) == multiset(missing) + multiset(ws);
    }
  }

  // ---------------------------------------------------------------------
  // Rendering

  /** The elements of a finite set in some order, each once. */
  ghost function Enumerate(s: set<string>): (xs: seq<string>)
    ensures Distinct(xs) && forall x :: x in xs <==> x in s
  {
    if s == {} then []
    else
      var x :| x in s;
      var rest := Enumerate(s - {x});
      assert forall k :: 0 <= k < |rest| ==> rest[k] != x;
      [x] + rest
  }

  /** The one strictly sorted listing of a set of names. */
  ghost function SortedListing(s: set<string>): (xs: seq<string>)
    ensures StrictlySorted(xs) && forall x :: x in xs <==> x in s
  {
    var e := Enumerate(s);
    SortDistinct(e);
    var xs := Sort(e);
    assert forall x :: x in xs <==> x in multiset(xs);
    assert forall x :: x in e <==> x in multiset(e);
    xs
  }

  /** Collects a set's elements in map order. */
  method CollectNames(repos: set<RepoName>) returns (collected: seq<RepoName>)
    ensures Distinct(collected) && forall r :: r in collected <==> r in repos
  {
    collected := [];
    var rest := repos;
    while rest != {}
      invariant rest <= repos
      invariant Distinct(collected)
      invariant forall r :: r in collected <==> r in repos && r !in rest
      decreases rest
    {
      var r :| r in rest;
      collected := collected + [r];
      rest := rest - {r};
    }
  }

  /** Renders a title's repositories: collected in map order, sorted, and
      joined with commas. The result is the same whatever the collection
      order: the set's one sorted listing, joined. */
  method RenderRepoList(repos: set<RepoName>) returns (names: seq<RepoName>, list: string)
    ensures StrictlySorted(names) && (forall r :: r in names <==> r in repos)
    ensures names == SortedListing(repos)
    ensures list == Join(names)
  {
    var collected := CollectNames(repos);
    names := Sort(collected);
    SortedNames(collected, repos);
    list := JoinNames(names);
  }

  /** Joins the names with commas, as the rendering loop does. */
  method JoinNames(names: seq<RepoName>) returns (list: string)
    ensures list == Join(names)
  {
    list := "";
    for i := 0 to |names|
      invariant list == Join(names[..i])
    {
      if i > 0 {
        list := list + ",";
      }
      list := list + names[i];
      JoinSnoc(names[..i], names[i]);
      assert names[..i + 1] == names[..i] + [names[i]];
    }
    assert names[..|names|] == names;
  }

  lemma SortedNames(collected: seq<RepoName>, repos: set<RepoName>)
    requires Distinct(collected) && forall r :: r in collected <==> r in repos
    ensures Sort(collected) == SortedListing(repos)
  {
    var names := Sort(collected);
    SortDistinct(collected);
    assert forall x :: x in names <==> x in multiset(names);
    assert forall x :: x in collected <==> x in multiset(collected);
    StrictlySortedUnique(names, SortedListing(repos));
  }

  /** `lines` holds exactly one line per title of `view`, carrying the
      title's due date and its sorted, comma-joined repositories. */
  ghost predicate ListedOnce(lines: seq<Line>, view: map<string, Agg>)
  {
    && |lines| == |view|
    && (forall i :: 0 <= i < |lines| ==> RendersTitle(lines[i], view))
    && forall i, j :: 0 <= i < j < |lines| ==> lines[i].title != lines[j].title
  }

  /** The line rendered for title `t`. */
  ghost predicate RendersTitle(l: Line, view: map<string, Agg>)
  {
    && l.ListLine?
    && l.title in view
    && l.dueOn == view[l.title].dueOn
    && l.repoList == Join(SortedListing(view[l.title].repos))
  }

  /** `lines` renders, once each, exactly the titles no longer `remaining`. */
  ghost predicate RenderedSoFar(lines: seq<Line>, view: map<string, Agg>, remaining: set<string>)
  {
    && remaining <= view.Keys
    && |lines| + |remaining| == |view|
    && (forall i :: 0 <= i < |lines| ==> RendersTitle(lines[i], view) && lines[i].title !in remaining)
    && forall i, j :: 0 <= i < j < |lines| ==> lines[i].title != lines[j].title
  }

  lemma RenderStep(lines: seq<Line>, view: map<string, Agg>, remaining: set<string>, t: string, l: Line)
    requires RenderedSoFar(lines, view, remaining) && t in remaining
    requires RendersTitle(l, view) && l.title == t
    ensures RenderedSoFar(lines + [l], view, remaining - {t})
  {
    var lines' := lines + [l];
    forall i | 0 <= i < |lines'|
      ensures RendersTitle(lines'[i], view) && lines'[i].title !in remaining - {t}
    {
      if i < |lines| {
        assert lines'[i] == lines[i];
      }
    }
    forall i, j | 0 <= i < j < |lines'|
      ensures lines'[i].title != lines'[j].title
    {
      assert lines'[i] == lines[i];
      if j < |lines| {
        assert lines'[j] == lines[j];
      }
    }
  }

  /** Renders one line per title, titles in no particular order. */
  method RenderView(view: map<string, Agg>) returns (lines: seq<Line>)
    ensures ListedOnce(lines, view)
  {
    lines := [];
    var remaining := view.Keys;
    while remaining != {}
      invariant RenderedSoFar(lines, view, remaining)
      decreases remaining
    {
      var t :| t in remaining;
      var ms := view[t];
      var _, repoList := RenderRepoList(ms.repos);
      RenderStep(lines, view, remaining, t, ListLine(t, ms.dueOn, repoList));
      lines := lines + [ListLine(t, ms.dueOn, repoList)];
      remaining := remaining - {t};
    }
  }

  // ---------------------------------------------------------------------
  // The command

  /** The `list` command on `target`: resolve the repositories, fold their
      milestones, warn about missing repositories, and render one line per
      title. Any failure ends the command, with no line rendered. */
  method ListMilestones(target: string, remote: Remote) returns (status: Status, warnings: seq<Warning>, lines: seq<Line>)
    requires '/' !in target ==> Terminates(remote.pages)
    ensures Resolve(target, remote.pages).Err? ==>
      status == Failure(Resolve(target, remote.pages).error) && warnings == [] && lines == []
    ensures Resolve(target, remote.pages).Ok? ==>
      var repos := Resolve(target, remote.pages).value;
      var k := FirstUnlisted(repos, remote.milestones);
      var tally := FoldAll(Occurrences(repos[..k], remote.milestones));
      && (k < |repos| ==> status == Failure(ListMilestonesFailed(repos[k])) && warnings == tally.warnings && lines == [])
      && (k == |repos| ==>
            && status == Success
            && |tally.warnings| <= |warnings|
            && warnings[..|tally.warnings|] == tally.warnings
            && MissingReported(warnings[|tally.warnings|..], tally.view, repos)
            && ListedOnce(lines, tally.view))
  {
    var res, _ := GetRepos(target, remote.pages);
    if res.Err? {
      return Failure(res.error), [], [];
    }
    var repos := res.value;
    var view;
    status, view, warnings := FoldListings(repos, remote.milestones);
    if status.Failure? {
      return status, warnings, [];
    }
    var missing := ScanMissing(view, repos);
    assert (warnings + missing)[..|warnings|] == warnings;
    assert (warnings + missing)[|warnings|..] == missing;
    warnings := warnings + missing;
    lines := RenderView(view);
  }
}
