/** The `set` and `close` commands: find, in every repository, the open
    milestone with the requested title that needs the change, and either
    report the change (dry run) or make it (with the confirmation flag). */
module Planner {
  import opened Types
  import opened Repos

  /** The change a mutating command asks for. */
  datatype Intent = SetDueOn(due: Timestamp) | Close

  /** A mutating command's request: the milestone title, the change, and
      whether the confirmation flag was given. */
  datatype Request = Request(title: string, intent: Intent, confirmed: bool)

  /** A milestone the command acts on: the requested title, still open, and
      (when setting a due date) due on another date than the requested one. */
  predicate IsCandidate(req: Request, m: Milestone)
  {
    && m.title == req.title
    && m.state == "open"
    && (req.intent.SetDueOn? ==> m.dueOn != req.intent.due)
  }

  // ---------------------------------------------------------------------
  // The events of a run

  /** A step of a run that matters: a repository whose listing failed, or a
      candidate milestone found in a repository. */
  datatype Event = Unlisted(repo: RepoName) | Candidate(repo: RepoName, m: Milestone)

  /** The candidates among a repository's milestones, in listing order. */
  function CandidatesIn(req: Request, r: RepoName, ms: seq<Milestone>): seq<Event>
  {
    if ms == [] then []
    else
      CandidatesIn(req, r, ms[..|ms| - 1]) + Chosen(req, r, ms[|ms| - 1])
  }

  /** The event a milestone gives rise to, if any. */
  function Chosen(req: Request, r: RepoName, m: Milestone): seq<Event>
  {
    if IsCandidate(req, m) then [Candidate(r, m)] else []
  }

  function RepoEvents(req: Request, r: RepoName, l: Listing): seq<Event>
  {
    match l
    case ListingFailed => [Unlisted(r)]
    case Listed(ms) => CandidatesIn(req, r, ms)
  }

  /** The events of visiting every repository in order. */
  function Events(req: Request, repos: seq<RepoName>, listing: RepoName -> Listing): seq<Event>
  {
    if repos == [] then []
    else
      var r := repos[|repos| - 1];
      Events(req, repos[..|repos| - 1], listing) + RepoEvents(req, r, listing(r))
  }

  lemma {:induction false} CandidatesAppend(req: Request, r: RepoName, a: seq<Milestone>, b: seq<Milestone>)
    ensures CandidatesIn(req, r, a + b) == CandidatesIn(req, r, a) + CandidatesIn(req, r, b)
    decreases |b|
  {
    if b != [] {
      var b' := b[..|b| - 1];
      assert (a + b)[..|a + b| - 1] == a + b';
      CandidatesAppend(req, r, a, b');
    } else {
      assert a + b == a;
    }
  }

  lemma {:induction false} EventsAppend(req: Request, a: seq<RepoName>, b: seq<RepoName>, listing: RepoName -> Listing)
    ensures Events(req, a + b, listing) == Events(req, a, listing) + Events(req, b, listing)
    decreases |b|
  {
    if b != [] {
      var b' := b[..|b| - 1];
      assert (a + b)[..|a + b| - 1] == a + b';
      EventsAppend(req, a, b', listing);
    } else {
      assert a + b == a;
    }
  }

  /** Every event of a run whose listings all succeed is a candidate
      milestone of one of the repositories. */
  lemma {:induction false} EventsAreCandidates(req: Request, repos: seq<RepoName>, listing: RepoName -> Listing)
    requires forall k :: 0 <= k < |repos| ==> listing(repos[k]).Listed?
    ensures forall e :: e in Events(req, repos, listing) ==>
      && e.Candidate?
      && IsCandidate(req, e.m)
      && exists k :: 0 <= k < |repos| && repos[k] == e.repo && e.m in listing(repos[k]).milestones
  {
    if repos != [] {
      var p, r := repos[..|repos| - 1], repos[|repos| - 1];
      assert forall k :: 0 <= k < |p| ==> p[k] == repos[k];
      EventsAreCandidates(req, p, listing);
      CandidatesMembers(req, r, listing(r).milestones);
      forall e | e in Events(req, repos, listing)
        ensures exists k :: 0 <= k < |repos| && repos[k] == e.repo && e.m in listing(repos[k]).milestones
      {
        if e in Events(req, p, listing) {
          var k :| 0 <= k < |p| && p[k] == e.repo && e.m in listing(p[k]).milestones;
          assert repos[k] == p[k];
        } else {
          assert repos[|repos| - 1] == e.repo;
        }
      }
    }
  }

  /** Every candidate milestone of every repository whose listing succeeds
      is an event of the run: closed milestones, other titles and milestones
      already due on the requested date are the only ones skipped. */
  lemma {:induction false} CandidatesAreEvents(req: Request, repos: seq<RepoName>, listing: RepoName -> Listing)
    ensures forall k, m :: 0 <= k < |repos| && listing(repos[k]).Listed? && m in listing(repos[k]).milestones && IsCandidate(req, m) ==>
      Candidate(repos[k], m) in Events(req, repos, listing)
  {
    if repos != [] {
      var p, r := repos[..|repos| - 1], repos[|repos| - 1];
      CandidatesAreEvents(req, p, listing);
      if listing(r).Listed? {
        CandidatesMembers(req, r, listing(r).milestones);
      }
      forall k, m | 0 <= k < |repos| && listing(repos[k]).Listed? && m in listing(repos[k]).milestones && IsCandidate(req, m)
        ensures Candidate(repos[k], m) in Events(req, repos, listing)
      {
        if k < |p| {
          assert p[k] == repos[k];
          assert Candidate(p[k], m) in Events(req, p, listing);
        }
      }
    }
  }

  lemma {:induction false} CandidatesMembers(req: Request, r: RepoName, ms: seq<Milestone>)
    ensures forall e :: e in CandidatesIn(req, r, ms) ==> e.Candidate? && e.repo == r && e.m in ms && IsCandidate(req, e.m)
    ensures forall m :: m in ms && IsCandidate(req, m) ==> Candidate(r, m) in CandidatesIn(req, r, ms)
  {
    if ms != [] {
      var p := ms[..|ms| - 1];
      CandidatesMembers(req, r, p);
      assert ms == p + [ms[|ms| - 1]];
    }
  }

  // ---------------------------------------------------------------------
  // What a run writes and sends

  /** The edit requests sent, the output lines and the warnings, in order. */
  datatype Log = Log(edits: seq<EditCall>, lines: seq<Line>, warnings: seq<Warning>)

  function Then(a: Log, b: Log): Log
  {
    Log(a.edits + b.edits, a.lines + b.lines, a.warnings + b.warnings)
  }

  const NoLog := Log([], [], [])

  lemma Regroup<T>(a: seq<T>, b: seq<T>, c: seq<T>, d: seq<T>)
    ensures a + (b + c + d) == a + b + c + d
  {
  }

  lemma ThenNoLog(a: Log)
    ensures Then(a, NoLog) == a
  {
    assert a.edits + [] == a.edits && a.lines + [] == a.lines && a.warnings + [] == a.warnings;
  }

  /** The edit request a candidate calls for. */
  function EditFor(req: Request, r: RepoName, m: Milestone): EditCall
  {
    EditCall(r, m.number, match req.intent case SetDueOn(d) => NewDueOn(d) case Close => NewState("closed"))
  }

  /** The line reporting a candidate's change, completed or dry-run. */
  function ChangeLine(req: Request, r: RepoName, m: Milestone): Line
  {
    match req.intent
    case SetDueOn(d) => DueChange(req.confirmed, req.title, m.number, r, m.dueOn, d)
    case Close => CloseLine(req.confirmed, req.title, m.number, r)
  }

  function SummaryLine(req: Request, count: nat): Line
  {
    match req.intent
    case SetDueOn(_) => SetSummary(count, req.confirmed)
    case Close => CloseSummary(count, req.confirmed)
  }

  /** One warning per issue still filed under a milestone being closed. */
  function IssueWarnings(r: RepoName, title: string, issues: seq<int>): (ws: seq<Warning>)
  {
    seq(|issues|, i requires 0 <= i < |issues| => IssueStillActive(issues[i], r, title))
  }

  predicate IssuesFail(req: Request, remote: Remote, e: Event)
  {
    req.intent.Close? && e.Candidate? && remote.issues(e.repo, e.m.number).IssuesFailed?
  }

  /** The event stops the run: a failed milestone listing, a failed issue
      listing for a milestone being closed, or a failed edit. */
  predicate Aborts(req: Request, remote: Remote, e: Event)
  {
    || e.Unlisted?
    || IssuesFail(req, remote, e)
    || (req.confirmed && !remote.edit(EditFor(req, e.repo, e.m)))
  }

  predicate NoAborts(req: Request, remote: Remote, evs: seq<Event>)
  {
    forall i :: 0 <= i < |evs| ==> !Aborts(req, remote, evs[i])
  }

  function Warned(req: Request, remote: Remote, e: Event): seq<Warning>
    requires e.Candidate? && !IssuesFail(req, remote, e)
  {
    if req.intent.Close? then IssueWarnings(e.repo, req.title, remote.issues(e.repo, e.m.number).issues) else []
  }

  /** What handling a candidate that does not stop the run writes and sends:
      its issue warnings when closing, its edit request when confirmed, and
      its change line. */
  function Handled(req: Request, remote: Remote, e: Event): Log
    requires e.Candidate? && !Aborts(req, remote, e)
  {
    Log(if req.confirmed then [EditFor(req, e.repo, e.m)] else [],
        [ChangeLine(req, e.repo, e.m)],
        Warned(req, remote, e))
  }

  /** What an event that stops the run writes and sends first: nothing for a
      failed listing; the issue warnings and the failed request for a failed edit. */
  function Aborted(req: Request, remote: Remote, e: Event): Log
    requires Aborts(req, remote, e)
  {
    if e.Unlisted? || IssuesFail(req, remote, e) then NoLog
    else Log([EditFor(req, e.repo, e.m)], [], Warned(req, remote, e))
  }

  function ErrorOf(req: Request, remote: Remote, e: Event): Error
    requires Aborts(req, remote, e)
  {
    match e
    case Unlisted(r) => ListMilestonesFailed(r)
    case Candidate(r, m) =>
      if IssuesFail(req, remote, e) then ListIssuesFailed(req.title, r)
      else if req.intent.SetDueOn? then EditFailed(req.title, m.number, r)
      else CloseFailed(req.title, m.number, r)
  }

  function HandledAll(req: Request, remote: Remote, evs: seq<Event>): Log
    requires NoAborts(req, remote, evs)
  {
    if evs == [] then NoLog
    else Then(HandledAll(req, remote, evs[..|evs| - 1]), Handled(req, remote, evs[|evs| - 1]))
  }

  lemma HandledAllSnoc(req: Request, remote: Remote, evs: seq<Event>, e: Event)
    requires NoAborts(req, remote, evs + [e])
    ensures NoAborts(req, remote, evs)
    ensures HandledAll(req, remote, evs + [e]) == Then(HandledAll(req, remote, evs), Handled(req, remote, e))
  {
    assert forall i :: 0 <= i < |evs| ==> (evs + [e])[i] == evs[i];
    assert (evs + [e])[..|evs|] == evs;
  }

  /** The number of events before the first one that stops the run. */
  function CleanLength(req: Request, remote: Remote, evs: seq<Event>): (k: nat)
    ensures k <= |evs|
    ensures NoAborts(req, remote, evs[..k])
    ensures k < |evs| ==> Aborts(req, remote, evs[k])
    decreases |evs|
  {
    if evs == [] then 0
    else if Aborts(req, remote, evs[0]) then 0
    else
      var k := CleanLength(req, remote, evs[1..]);
      assert forall i :: 1 <= i < |evs| ==> evs[i] == evs[1..][i - 1];
      k + 1
  }

  /** How a command ended and what it wrote and sent. */
  datatype Report = Report(status: Status, log: Log)

  /** The run over `evs`: every event is handled in order until one stops
      the run; a run that is not stopped ends with a summary line when it
      acted on at least one candidate. */
  function Run(req: Request, remote: Remote, evs: seq<Event>): Report
  {
    var k := CleanLength(req, remote, evs);
    var done := HandledAll(req, remote, evs[..k]);
    if k == |evs| then
      Report(Success, done.(lines := done.lines + if k > 0 then [SummaryLine(req, k)] else []))
    else
      Report(Failure(ErrorOf(req, remote, evs[k])), Then(done, Aborted(req, remote, evs[k])))
  }

  /** The whole command: resolve the target, then run over its repositories. */
  function Planned(target: string, req: Request, remote: Remote): Report
    requires '/' !in target ==> Terminates(remote.pages)
  {
    match Resolve(target, remote.pages)
    case Err(e) => Report(Failure(e), NoLog)
    case Ok(repos) => Run(req, remote, Events(req, repos, remote.milestones))
  }

  lemma CleanPrefix(req: Request, remote: Remote, seen: seq<Event>, rest: seq<Event>)
    requires NoAborts(req, remote, seen)
    ensures CleanLength(req, remote, seen + rest) == |seen| + CleanLength(req, remote, rest)
    decreases |seen|
  {
    if seen == [] {
      assert seen + rest == rest;
    } else {
      assert (seen + rest)[1..] == seen[1..] + rest;
      assert (seen + rest)[0] == seen[0];
      assert !Aborts(req, remote, seen[0]);
      assert forall i :: 0 <= i < |seen| - 1 ==> seen[1..][i] == seen[i + 1];
      CleanPrefix(req, remote, seen[1..], rest);
    }
  }

  /** A run whose events all go through completes, with the summary. */
  lemma RunCompletes(req: Request, remote: Remote, evs: seq<Event>)
    requires NoAborts(req, remote, evs)
    ensures var done := HandledAll(req, remote, evs);
      Run(req, remote, evs) ==
        Report(Success, done.(lines := done.lines + if |evs| > 0 then [SummaryLine(req, |evs|)] else []))
  {
    CleanPrefix(req, remote, evs, []);
    assert evs + [] == evs;
    assert evs[..|evs|] == evs;
  }

  /** A run stops at the first event that stops it. */
  lemma RunStopsAt(req: Request, remote: Remote, seen: seq<Event>, e: Event, rest: seq<Event>)
    requires NoAborts(req, remote, seen) && Aborts(req, remote, e)
    ensures Run(req, remote, seen + [e] + rest) ==
      Report(Failure(ErrorOf(req, remote, e)), Then(HandledAll(req, remote, seen), Aborted(req, remote, e)))
  {
    var evs := seen + [e] + rest;
    assert evs == seen + ([e] + rest);
    CleanPrefix(req, remote, seen, [e] + rest);
    assert evs[..|seen|] == seen;
    assert evs[|seen|] == e;
  }


  /** Visiting repository `i` adds its events after those of the ones before it. */
  lemma EventsAt(req: Request, repos: seq<RepoName>, listing: RepoName -> Listing, i: nat)
    requires i < |repos|
    ensures Events(req, repos[..i + 1], listing) == Events(req, repos[..i], listing) + RepoEvents(req, repos[i], listing(repos[i]))
    ensures Events(req, repos, listing) == Events(req, repos[..i + 1], listing) + Events(req, repos[i + 1..], listing)
  {
    assert repos[..i + 1][..i] == repos[..i];
    assert repos == repos[..i + 1] + repos[i + 1..];
    EventsAppend(req, repos[..i + 1], repos[i + 1..], listing);
  }

  /** Looking at milestone `j` adds its event after those of the ones before it. */
  lemma CandidatesAt(req: Request, r: RepoName, ms: seq<Milestone>, j: nat)
    requires j < |ms|
    ensures CandidatesIn(req, r, ms[..j + 1]) == CandidatesIn(req, r, ms[..j]) + Chosen(req, r, ms[j])
    ensures CandidatesIn(req, r, ms) == CandidatesIn(req, r, ms[..j + 1]) + CandidatesIn(req, r, ms[j + 1..])
  {
    assert ms[..j + 1][..j] == ms[..j];
    assert ms == ms[..j + 1] + ms[j + 1..];
    CandidatesAppend(req, r, ms[..j + 1], ms[j + 1..]);
  }

  /** The run's events after milestone `j` extend those after milestone `j - 1`
      by the event milestone `j` gives rise to. */
  lemma CandidatesStep(req: Request, r: RepoName, ms: seq<Milestone>, j: nat, seen0: seq<Event>)
    requires j < |ms|
    ensures seen0 + CandidatesIn(req, r, ms[..j + 1]) == (seen0 + CandidatesIn(req, r, ms[..j])) + Chosen(req, r, ms[j])
  {
    assert CandidatesIn(req, r, ms[..j + 1]) == CandidatesIn(req, r, ms[..j]) + Chosen(req, r, ms[j]) by {
      CandidatesAt(req, r, ms, j);
    }
    Associate(seen0, CandidatesIn(req, r, ms[..j]), Chosen(req, r, ms[j]));
  }

  /** A run stopped by candidate milestone `j` leaves the candidates after it unreached. */
  lemma CandidatesStopAt(req: Request, r: RepoName, ms: seq<Milestone>, j: nat, seen0: seq<Event>)
    requires j < |ms| && IsCandidate(req, ms[j])
    ensures seen0 + CandidatesIn(req, r, ms) ==
      (seen0 + CandidatesIn(req, r, ms[..j])) + [Candidate(r, ms[j])] + CandidatesIn(req, r, ms[j + 1..])
  {
    assert CandidatesIn(req, r, ms) ==
      CandidatesIn(req, r, ms[..j]) + [Candidate(r, ms[j])] + CandidatesIn(req, r, ms[j + 1..]) by {
      CandidatesAt(req, r, ms, j);
    }
    Regroup(seen0, CandidatesIn(req, r, ms[..j]), [Candidate(r, ms[j])], CandidatesIn(req, r, ms[j + 1..]));
  }

  /** A run that stops in repository `i`, after handling `seen`, stops
      there whatever the later repositories hold. */
  lemma RunStopsInRepo(req: Request, remote: Remote, repos: seq<RepoName>, i: nat,
                       seen: seq<Event>, stop: Event, rest: seq<Event>)
    requires i < |repos|
    requires Events(req, repos[..i], remote.milestones) + RepoEvents(req, repos[i], remote.milestones(repos[i]))
      == seen + [stop] + rest
    requires NoAborts(req, remote, seen) && Aborts(req, remote, stop)
    ensures Run(req, remote, Events(req, repos, remote.milestones)) ==
      Report(Failure(ErrorOf(req, remote, stop)), Then(HandledAll(req, remote, seen), Aborted(req, remote, stop)))
  {
    var after := Events(req, repos[i + 1..], remote.milestones);
    EventsAfterStop(req, repos, remote.milestones, i, seen + [stop], rest);
    RunStopsAt(req, remote, seen, stop, rest + after);
  }

  lemma EventsAfterStop(req: Request, repos: seq<RepoName>, listing: RepoName -> Listing, i: nat,
                        head: seq<Event>, rest: seq<Event>)
    requires i < |repos|
    requires Events(req, repos[..i], listing) + RepoEvents(req, repos[i], listing(repos[i])) == head + rest
    ensures Events(req, repos, listing) == head + (rest + Events(req, repos[i + 1..], listing))
  {
    var upto, after := Events(req, repos[..i + 1], listing), Events(req, repos[i + 1..], listing);
    assert Events(req, repos, listing) == upto + after && upto == head + rest by {
      EventsAt(req, repos, listing, i);
    }
    Associate(head, rest, after);
  }

  lemma Associate<T>(a: seq<T>, b: seq<T>, c: seq<T>)
    ensures (a + b) + c == a + (b + c)
  {
  }

  // ---------------------------------------------------------------------
  // Properties of a run

  /** Events that do not stop the run are all candidates. */
  lemma NoAbortsCandidates(req: Request, remote: Remote, evs: seq<Event>)
    requires NoAborts(req, remote, evs)
    ensures forall i :: 0 <= i < |evs| ==> evs[i].Candidate?
  {
    assert forall i :: 0 <= i < |evs| ==> !Aborts(req, remote, evs[i]);
  }

  /** Handling events that do not stop the run writes one change line per
      event, in order. */
  lemma {:induction false} HandledLines(req: Request, remote: Remote, evs: seq<Event>)
    requires NoAborts(req, remote, evs)
    ensures forall i :: 0 <= i < |evs| ==> evs[i].Candidate?
    ensures |HandledAll(req, remote, evs).lines| == |evs|
    ensures forall i :: 0 <= i < |evs| ==> HandledAll(req, remote, evs).lines[i] == ChangeLine(req, evs[i].repo, evs[i].m)
  {
    NoAbortsCandidates(req, remote, evs);
    if evs != [] {
      var p, e := evs[..|evs| - 1], evs[|evs| - 1];
      assert evs == p + [e];
      HandledAllSnoc(req, remote, p, e);
      HandledLines(req, remote, p);
      var lines := HandledAll(req, remote, evs).lines;
      assert lines == HandledAll(req, remote, p).lines + [ChangeLine(req, e.repo, e.m)];
      forall i | 0 <= i < |evs| ensures lines[i] == ChangeLine(req, evs[i].repo, evs[i].m) {
        if i < |p| {
          assert evs[i] == p[i];
        }
      }
    }
  }

  /** Handling events that do not stop the run sends one edit request per
      event, in order, when confirmed, and none otherwise. */
  lemma {:induction false} HandledEdits(req: Request, remote: Remote, evs: seq<Event>)
    requires NoAborts(req, remote, evs)
    ensures forall i :: 0 <= i < |evs| ==> evs[i].Candidate?
    ensures |HandledAll(req, remote, evs).edits| == (if req.confirmed then |evs| else 0)
    ensures req.confirmed ==>
      forall i :: 0 <= i < |evs| ==> HandledAll(req, remote, evs).edits[i] == EditFor(req, evs[i].repo, evs[i].m)
  {
    NoAbortsCandidates(req, remote, evs);
    if evs != [] {
      var p, e := evs[..|evs| - 1], evs[|evs| - 1];
      assert evs == p + [e];
      HandledAllSnoc(req, remote, p, e);
      HandledEdits(req, remote, p);
      if req.confirmed {
        var edits := HandledAll(req, remote, evs).edits;
        assert edits == HandledAll(req, remote, p).edits + [EditFor(req, e.repo, e.m)];
        forall i | 0 <= i < |evs| ensures edits[i] == EditFor(req, evs[i].repo, evs[i].m) {
          if i < |p| {
            assert evs[i] == p[i];
          }
        }
      }
    }
  }

  /** Handling `set` events writes no warning. */
  lemma {:induction false} HandledSetWarnings(req: Request, remote: Remote, evs: seq<Event>)
    requires NoAborts(req, remote, evs) && req.intent.SetDueOn?
    ensures HandledAll(req, remote, evs).warnings == []
  {
    if evs != [] {
      var p, e := evs[..|evs| - 1], evs[|evs| - 1];
      assert evs == p + [e];
      HandledAllSnoc(req, remote, p, e);
      HandledSetWarnings(req, remote, p);
    }
  }

  /** The number of candidates among `ms`, counted front to back. */
  function CountCandidates(req: Request, ms: seq<Milestone>): nat
  {
    if ms == [] then 0 else (if IsCandidate(req, ms[0]) then 1 else 0) + CountCandidates(req, ms[1..])
  }

  /** A repository contributes one event per candidate milestone, so the run's
      count is the number of candidates. */
  lemma {:induction false} CandidatesCount(req: Request, r: RepoName, ms: seq<Milestone>)
    ensures |CandidatesIn(req, r, ms)| == CountCandidates(req, ms)
  {
    if ms != [] {
      CandidatesAppend(req, r, [ms[0]], ms[1..]);
      assert [ms[0]] + ms[1..] == ms;
      assert CandidatesIn(req, r, [ms[0]]) == Chosen(req, r, ms[0]) by {
        assert [ms[0]][..0] == [];
      }
      CandidatesCount(req, r, ms[1..]);
    }
  }

  /** The events of a run do not depend on the confirmation flag: a dry run
      and a confirmed run see the same events, though a confirmed run can stop
      earlier, at a failed edit. */
  lemma {:induction false} EventsIgnoreConfirmation(req: Request, repos: seq<RepoName>, listing: RepoName -> Listing, yes: bool)
    ensures Events(req, repos, listing) == Events(req.(confirmed := yes), repos, listing)
  {
    if repos != [] {
      var r := repos[|repos| - 1];
      EventsIgnoreConfirmation(req, repos[..|repos| - 1], listing, yes);
      if listing(r).Listed? {
        CandidatesIgnoreConfirmation(req, r, listing(r).milestones, yes);
      }
    }
  }

  lemma {:induction false} CandidatesIgnoreConfirmation(req: Request, r: RepoName, ms: seq<Milestone>, yes: bool)
    ensures CandidatesIn(req, r, ms) == CandidatesIn(req.(confirmed := yes), r, ms)
  {
    if ms != [] {
      CandidatesIgnoreConfirmation(req, r, ms[..|ms| - 1], yes);
    }
  }

  /** A run succeeds exactly when none of its events stops it. */
  lemma RunSucceedsIff(req: Request, remote: Remote, evs: seq<Event>)
    ensures Run(req, remote, evs).status == Success <==> NoAborts(req, remote, evs)
  {
    var k := CleanLength(req, remote, evs);
    if NoAborts(req, remote, evs) {
      RunCompletes(req, remote, evs);
    } else {
      assert k < |evs|;
    }
  }

  /** A completed run writes one change line per candidate and then, when
      there was at least one, the summary with their number; with the
      confirmation flag it sends exactly one edit request per candidate,
      carrying the requested change, and without it none. */
  lemma CompletedRun(req: Request, remote: Remote, evs: seq<Event>)
    requires NoAborts(req, remote, evs)
    ensures forall i :: 0 <= i < |evs| ==> evs[i].Candidate?
    ensures var rep := Run(req, remote, evs);
      && rep.status == Success
      && |rep.log.lines| == |evs| + (if |evs| > 0 then 1 else 0)
      && (forall i :: 0 <= i < |evs| ==> rep.log.lines[i] == ChangeLine(req, evs[i].repo, evs[i].m))
      && (|evs| > 0 ==> rep.log.lines[|evs|] == SummaryLine(req, |evs|))
      && |rep.log.edits| == (if req.confirmed then |evs| else 0)
      && (req.confirmed ==> forall i :: 0 <= i < |evs| ==> rep.log.edits[i] == EditFor(req, evs[i].repo, evs[i].m))
  {
    RunCompletes(req, remote, evs);
    HandledLines(req, remote, evs);
    HandledEdits(req, remote, evs);
  }

  /** The dry-run gate: without the confirmation flag no edit request is
      sent, whether the run completes or stops. */
  lemma DryRunSendsNoEdit(req: Request, remote: Remote, evs: seq<Event>)
    requires !req.confirmed
    ensures Run(req, remote, evs).log.edits == []
  {
    var k := CleanLength(req, remote, evs);
    HandledEdits(req, remote, evs[..k]);
  }

  /** The `set` command never warns. */
  lemma SetNeverWarns(req: Request, remote: Remote, evs: seq<Event>)
    requires req.intent.SetDueOn?
    ensures Run(req, remote, evs).log.warnings == []
  {
    var k := CleanLength(req, remote, evs);
    HandledSetWarnings(req, remote, evs[..k]);
  }

  predicate IsSummary(l: Line)
  {
    l.SetSummary? || l.CloseSummary?
  }

  /** The summary line is written only as the last line of a run that was
      not stopped, after at least one change line, and counts the change
      lines before it. */
  lemma SummaryOnlyAtEnd(req: Request, remote: Remote, evs: seq<Event>)
    ensures var rep := Run(req, remote, evs);
      forall i :: 0 <= i < |rep.log.lines| && IsSummary(rep.log.lines[i]) ==>
        && rep.status == Success
        && i == |rep.log.lines| - 1
        && 0 < i == rep.log.lines[i].count
  {
    var k := CleanLength(req, remote, evs);
    var done := HandledAll(req, remote, evs[..k]);
    HandledLines(req, remote, evs[..k]);
    var lines := Run(req, remote, evs).log.lines;
    if k == |evs| {
      assert lines == done.lines + if k > 0 then [SummaryLine(req, k)] else [];
    } else {
      assert lines == done.lines + Aborted(req, remote, evs[k]).lines;
      assert Aborted(req, remote, evs[k]).lines == [];
    }
    forall i | 0 <= i < |lines| && IsSummary(lines[i])
      ensures i == |done.lines| == k > 0 && k == |evs|
    {
    }
  }

  /** A run that was not stopped and acted on a candidate ends with the
      summary line. */
  lemma SummaryWritten(req: Request, remote: Remote, evs: seq<Event>)
    requires Run(req, remote, evs).status == Success && |evs| > 0
    ensures var lines := Run(req, remote, evs).log.lines;
      |lines| > 0 && lines[|lines| - 1] == SummaryLine(req, |evs|)
  {
    RunSucceedsIff(req, remote, evs);
    RunCompletes(req, remote, evs);
  }

  /** A completed run writes exactly the warnings of handling its events, so
      what is proved about `HandledAll` holds of the whole run. */
  lemma CompletedRunWarnings(req: Request, remote: Remote, evs: seq<Event>)
    requires NoAborts(req, remote, evs)
    ensures Run(req, remote, evs).log.warnings == HandledAll(req, remote, evs).warnings
  {
    RunCompletes(req, remote, evs);
  }

  /** The number of issues listed under the candidates of a close run. */
  function IssueCount(req: Request, remote: Remote, evs: seq<Event>): nat
    requires req.intent.Close? && NoAborts(req, remote, evs)
  {
    if evs == [] then 0
    else
      var e := evs[|evs| - 1];
      assert !Aborts(req, remote, e);
      IssueCount(req, remote, evs[..|evs| - 1]) + |remote.issues(e.repo, e.m.number).issues|
  }

  /** The candidates a close run handles before any stop give one warning
      for every issue listed under each; the warnings do not stop the close. */
  lemma {:induction false} CloseWarningCount(req: Request, remote: Remote, evs: seq<Event>)
    requires req.intent.Close? && NoAborts(req, remote, evs)
    ensures |HandledAll(req, remote, evs).warnings| == IssueCount(req, remote, evs)
  {
    if evs != [] {
      var p, e := evs[..|evs| - 1], evs[|evs| - 1];
      assert evs == p + [e];
      HandledAllSnoc(req, remote, p, e);
      CloseWarningCount(req, remote, p);
    }
  }

  /** Every warning from the candidates a close run handles before any stop
      is about an issue under the requested milestone title. */
  lemma {:induction false} CloseWarningKinds(req: Request, remote: Remote, evs: seq<Event>)
    requires req.intent.Close? && NoAborts(req, remote, evs)
    ensures forall w :: w in HandledAll(req, remote, evs).warnings ==> w.IssueStillActive? && w.title == req.title
  {
    if evs != [] {
      var p, e := evs[..|evs| - 1], evs[|evs| - 1];
      assert evs == p + [e];
      HandledAllSnoc(req, remote, p, e);
      CloseWarningKinds(req, remote, p);
    }
  }

  /** For the candidates a close run handles before any stop, it warns about
      issue `n` of repository `r` exactly when the issue is filed under one of
      them. */
  lemma {:induction false} CloseWarningMembers(req: Request, remote: Remote, evs: seq<Event>, n: int, r: RepoName)
    requires req.intent.Close? && NoAborts(req, remote, evs)
    ensures IssueStillActive(n, r, req.title) in HandledAll(req, remote, evs).warnings <==> IssueOf(req, remote, evs, n, r)
  {
    if evs != [] {
      var p, e := evs[..|evs| - 1], evs[|evs| - 1];
      assert evs == p + [e];
      HandledAllSnoc(req, remote, p, e);
      CloseWarningMembers(req, remote, p, n, r);
      IssueOfSnoc(req, remote, p, e, n, r);
      assert !Aborts(req, remote, e);
      IssueWarningsMembers(e.repo, req.title, remote.issues(e.repo, e.m.number).issues, n, r);
    }
  }

  lemma IssueWarningsMembers(r: RepoName, title: string, listed: seq<int>, n: int, r': RepoName)
    ensures IssueStillActive(n, r', title) in IssueWarnings(r, title, listed) <==> r' == r && n in listed
  {
    var ws := IssueWarnings(r, title, listed);
    if IssueStillActive(n, r', title) in ws {
      var k :| 0 <= k < |ws| && ws[k] == IssueStillActive(n, r', title);
      assert listed[k] == n;
    }
    if r' == r && n in listed {
      var k :| 0 <= k < |listed| && listed[k] == n;
      assert ws[k] == IssueStillActive(n, r', title);
    }
  }

  /** Issue `n` of repository `r` is filed under one of the candidates `evs`. */
  predicate IssueOf(req: Request, remote: Remote, evs: seq<Event>, n: int, r: RepoName)
    requires req.intent.Close? && NoAborts(req, remote, evs)
  {
    exists i :: 0 <= i < |evs| && evs[i].Candidate? && evs[i].repo == r && n in remote.issues(r, evs[i].m.number).issues
  }

  lemma IssueOfSnoc(req: Request, remote: Remote, p: seq<Event>, e: Event, n: int, r: RepoName)
    requires req.intent.Close? && NoAborts(req, remote, p + [e])
    ensures NoAborts(req, remote, p) && !Aborts(req, remote, e)
    ensures IssueOf(req, remote, p + [e], n, r) <==>
      IssueOf(req, remote, p, n, r) || (e.repo == r && n in remote.issues(r, e.m.number).issues)
  {
    assert forall i :: 0 <= i < |p| ==> (p + [e])[i] == p[i];
    assert (p + [e])[|p|] == e == [e][0];
    if IssueOf(req, remote, p + [e], n, r) {
      var i :| 0 <= i < |p + [e]| && (p + [e])[i].Candidate? && (p + [e])[i].repo == r && n in remote.issues(r, (p + [e])[i].m.number).issues;
      if i < |p| {
        assert p[i] == (p + [e])[i];
      }
    }
  }

  // ---------------------------------------------------------------------
  // Two worked scenarios

  /** Organisation `acme` with repositories `acme/a` and `acme/b`, each
      holding the open milestone M42 (#7) due on day 1. */
  function DueScenario(): Remote
  {
    Remote([Page(["acme/a", "acme/b"], 0)],
           r => Listed([Milestone("M42", 7, "open", 1)]),
           (r, n) => IssuesListed([]),
           call => true)
  }

  /** Moving M42 to day 2 reports both repositories and the count 2; only
      with the confirmation flag are the two edit requests sent. */
  lemma DueScenarioRun(yes: bool)
    ensures Planned("acme", Request("M42", SetDueOn(2), yes), DueScenario()) ==
      Report(Success, Log(
        if yes then [EditCall("acme/a", 7, NewDueOn(2)), EditCall("acme/b", 7, NewDueOn(2))] else [],
        [DueChange(yes, "M42", 7, "acme/a", 1, 2), DueChange(yes, "M42", 7, "acme/b", 1, 2), SetSummary(2, yes)],
        []))
  {
    var req, remote := Request("M42", SetDueOn(2), yes), DueScenario();
    var m := Milestone("M42", 7, "open", 1);
    var evs := [Candidate("acme/a", m), Candidate("acme/b", m)];
    assert Planned("acme", req, remote) == Run(req, remote, evs) by {
      assert Resolve("acme", remote.pages) == Ok(["acme/a", "acme/b"]);
      DueScenarioEvents(yes);
    }
    DueScenarioHandled(yes);
    RunCompletes(req, remote, evs);
  }

  lemma DueScenarioHandled(yes: bool)
    ensures var req, m := Request("M42", SetDueOn(2), yes), Milestone("M42", 7, "open", 1);
      var evs := [Candidate("acme/a", m), Candidate("acme/b", m)];
      && NoAborts(req, DueScenario(), evs)
      && HandledAll(req, DueScenario(), evs) == Log(
        if yes then [EditCall("acme/a", 7, NewDueOn(2)), EditCall("acme/b", 7, NewDueOn(2))] else [],
        [DueChange(yes, "M42", 7, "acme/a", 1, 2), DueChange(yes, "M42", 7, "acme/b", 1, 2)],
        [])
  {
    var req, remote := Request("M42", SetDueOn(2), yes), DueScenario();
    var m := Milestone("M42", 7, "open", 1);
    var evs := [Candidate("acme/a", m), Candidate("acme/b", m)];
    var h0 := Log(if yes then [EditCall("acme/a", 7, NewDueOn(2))] else [], [DueChange(yes, "M42", 7, "acme/a", 1, 2)], []);
    var h1 := Log(if yes then [EditCall("acme/b", 7, NewDueOn(2))] else [], [DueChange(yes, "M42", 7, "acme/b", 1, 2)], []);
    assert remote.edit(EditFor(req, "acme/a", m)) && remote.edit(EditFor(req, "acme/b", m));
    assert Handled(req, remote, evs[0]) == h0;
    assert Handled(req, remote, evs[1]) == h1;
    assert [] + [evs[0]] == [evs[0]] && [evs[0]] + [evs[1]] == evs;
    HandledAllSnoc(req, remote, [], evs[0]);
    assert HandledAll(req, remote, [evs[0]]) == h0 by {
      assert h0.edits == [] + h0.edits && h0.lines == [] + h0.lines;
    }
    HandledAllSnoc(req, remote, [evs[0]], evs[1]);
  }

  lemma DueScenarioEvents(yes: bool)
    ensures var req, m := Request("M42", SetDueOn(2), yes), Milestone("M42", 7, "open", 1);
      Events(req, ["acme/a", "acme/b"], DueScenario().milestones) == [Candidate("acme/a", m), Candidate("acme/b", m)]
  {
    var req, remote := Request("M42", SetDueOn(2), yes), DueScenario();
    var repos := ["acme/a", "acme/b"];
    var m := Milestone("M42", 7, "open", 1);
    assert CandidatesIn(req, "acme/a", [m]) == [Candidate("acme/a", m)] by { assert [m][..0] == []; }
    assert CandidatesIn(req, "acme/b", [m]) == [Candidate("acme/b", m)] by { assert [m][..0] == []; }
    assert repos[..1][..0] == [] && repos[..1] == ["acme/a"];
    assert remote.milestones("acme/a") == Listed([m]) && remote.milestones("acme/b") == Listed([m]);
    assert Events(req, repos[..1], remote.milestones) == [Candidate("acme/a", m)];
  }

  /** Organisation `acme` where M42 is open (#3) in `acme/a` with issue 12
      still filed under it, and closed (#5) in `acme/b`. */
  function CloseScenario(): Remote
  {
    Remote([Page(["acme/a", "acme/b"], 0)],
           r => if r == "acme/a" then Listed([Milestone("M42", 3, "open", 0)]) else Listed([Milestone("M42", 5, "closed", 0)]),
           (r, n) => if r == "acme/a" && n == 3 then IssuesListed([12]) else IssuesListed([]),
           call => true)
  }

  /** Closing M42 warns once about issue 12 in `acme/a`, acts on `acme/a`
      only and counts 1; `acme/b` is skipped without a word. */
  lemma CloseScenarioRun(yes: bool)
    ensures Planned("acme", Request("M42", Close, yes), CloseScenario()) ==
      Report(Success, Log(
        if yes then [EditCall("acme/a", 3, NewState("closed"))] else [],
        [CloseLine(yes, "M42", 3, "acme/a"), CloseSummary(1, yes)],
        [IssueStillActive(12, "acme/a", "M42")]))
  {
    var req, remote := Request("M42", Close, yes), CloseScenario();
    var open := Milestone("M42", 3, "open", 0);
    var evs := [Candidate("acme/a", open)];
    assert Planned("acme", req, remote) == Run(req, remote, evs) by {
      assert Resolve("acme", remote.pages) == Ok(["acme/a", "acme/b"]);
      CloseScenarioEvents(yes);
    }
    CloseScenarioHandled(yes);
    RunCompletes(req, remote, evs);
  }

  lemma CloseScenarioHandled(yes: bool)
    ensures var req, evs := Request("M42", Close, yes), [Candidate("acme/a", Milestone("M42", 3, "open", 0))];
      && NoAborts(req, CloseScenario(), evs)
      && HandledAll(req, CloseScenario(), evs) == Log(
        if yes then [EditCall("acme/a", 3, NewState("closed"))] else [],
        [CloseLine(yes, "M42", 3, "acme/a")],
        [IssueStillActive(12, "acme/a", "M42")])
  {
    var req, remote := Request("M42", Close, yes), CloseScenario();
    var evs := [Candidate("acme/a", Milestone("M42", 3, "open", 0))];
    assert remote.issues("acme/a", 3) == IssuesListed([12]);
    assert IssueWarnings("acme/a", "M42", [12]) == [IssueStillActive(12, "acme/a", "M42")];
    assert [] + evs == evs;
    HandledAllSnoc(req, remote, [], evs[0]);
  }

  lemma CloseScenarioEvents(yes: bool)
    ensures var req := Request("M42", Close, yes);
      Events(req, ["acme/a", "acme/b"], CloseScenario().milestones) == [Candidate("acme/a", Milestone("M42", 3, "open", 0))]
  {
    var req, remote := Request("M42", Close, yes), CloseScenario();
    var repos := ["acme/a", "acme/b"];
    var open, closed := Milestone("M42", 3, "open", 0), Milestone("M42", 5, "closed", 0);
    assert CandidatesIn(req, "acme/a", [open]) == [Candidate("acme/a", open)] by { assert [open][..0] == []; }
    assert CandidatesIn(req, "acme/b", [closed]) == [] by { assert [closed][..0] == []; }
    assert repos[..1][..0] == [] && repos[..1] == ["acme/a"];
    assert remote.milestones("acme/a") == Listed([open]) && remote.milestones("acme/b") == Listed([closed]);
    assert Events(req, repos[..1], remote.milestones) == [Candidate("acme/a", open)];
    assert Events(req, repos, remote.milestones) == [Candidate("acme/a", open)] + [];
  }


  // ---------------------------------------------------------------------
  // The commands

  /** The `set` command: give every open milestone titled `title` the due
      date `newDueOn`, or, without the confirmation flag, report what would
      change. Any listing or edit failure ends the command. */
  method SetMilestone(target: string, title: string, newDueOn: Timestamp, yes: bool, remote: Remote)
    returns (report: Report)
    requires '/' !in target ==> Terminates(remote.pages)
    ensures report == Planned(target, Request(title, SetDueOn(newDueOn), yes), remote)
  {
    var res, _ := GetRepos(target, remote.pages);
    if res.Err? {
      return Report(Failure(res.error), NoLog);
    }
    report := SetInRepos(title, newDueOn, yes, remote, res.value);
  }

  /** The `set` command's pass over the resolved repositories, in order. */
  method SetInRepos(title: string, newDueOn: Timestamp, yes: bool, remote: Remote, repos: seq<RepoName>)
    returns (report: Report)
    ensures var req := Request(title, SetDueOn(newDueOn), yes);
      report == Run(req, remote, Events(req, repos, remote.milestones))
  {
    ghost var req := Request(title, SetDueOn(newDueOn), yes);
    var c: nat := 0;
    var edits: seq<EditCall> := [];
    var lines: seq<Line> := [];
    ghost var seen: seq<Event> := [];
    for i := 0 to |repos|
      invariant seen == Events(req, repos[..i], remote.milestones)
      invariant NoAborts(req, remote, seen)
      invariant c == |seen|
      invariant Log(edits, lines, []) == HandledAll(req, remote, seen)
    {
      var r := repos[i];
      EventsAt(req, repos, remote.milestones, i);
      var l := remote.milestones(r);
      if l.ListingFailed? {
        RunStopsInRepo(req, remote, repos, i, seen, Unlisted(r), []);
        ThenNoLog(HandledAll(req, remote, seen));
        return Report(Failure(ListMilestonesFailed(r)), Log(edits, lines, []));
      }
      var status;
      ghost var stop, rest;
      status, c, edits, lines, seen, stop, rest := SetInRepo(title, newDueOn, yes, remote, r, l.milestones, c, edits, lines, seen);
      if status.Failure? {
        RunStopsInRepo(req, remote, repos, i, seen, stop, rest);
        return Report(status, Log(edits, lines, []));
      }
    }
    assert repos[..|repos|] == repos;
    RunCompletes(req, remote, seen);
    if c > 0 {
      lines := lines + [SetSummary(c, yes)];
    }
    report := Report(Success, Log(edits, lines, []));
  }

  /** The `set` command's pass over one repository's milestones, continuing
      a run that has handled `seen0`. When it stops, `stop` is the event that
      stopped it and `rest` the events of this repository it did not reach. */
  method SetInRepo(title: string, newDueOn: Timestamp, yes: bool, remote: Remote, r: RepoName, ms: seq<Milestone>,
                   c0: nat, edits0: seq<EditCall>, lines0: seq<Line>, ghost seen0: seq<Event>)
    returns (status: Status, c: nat, edits: seq<EditCall>, lines: seq<Line>,
             ghost seen: seq<Event>, ghost stop: Event, ghost rest: seq<Event>)
    requires NoAborts(Request(title, SetDueOn(newDueOn), yes), remote, seen0) && c0 == |seen0|
    requires Log(edits0, lines0, []) == HandledAll(Request(title, SetDueOn(newDueOn), yes), remote, seen0)
    ensures var req := Request(title, SetDueOn(newDueOn), yes);
      && NoAborts(req, remote, seen) && c == |seen|
      && (status.Success? ==>
        && seen == seen0 + CandidatesIn(req, r, ms)
        && Log(edits, lines, []) == HandledAll(req, remote, seen))
      && (status.Failure? ==>
        && seen0 + CandidatesIn(req, r, ms) == seen + [stop] + rest
        && Aborts(req, remote, stop)
        && status == Failure(ErrorOf(req, remote, stop))
        && Log(edits, lines, []) == Then(HandledAll(req, remote, seen), Aborted(req, remote, stop)))
  {
    ghost var req := Request(title, SetDueOn(newDueOn), yes);
    c, edits, lines, seen, stop, rest := c0, edits0, lines0, seen0, Unlisted(r), [];
    status := Success;
    for j := 0 to |ms|
      invariant status.Success?
      invariant seen == seen0 + CandidatesIn(req, r, ms[..j])
      invariant NoAborts(req, remote, seen)
      invariant c == |seen|
      invariant Log(edits, lines, []) == HandledAll(req, remote, seen)
    {
      CandidatesStep(req, r, ms, j, seen0);
      status, c, edits, lines, seen := SetOne(title, newDueOn, yes, remote, r, ms[j], c, edits, lines, seen);
      if status.Failure? {
        stop, rest := Candidate(r, ms[j]), CandidatesIn(req, r, ms[j + 1..]);
        CandidatesStopAt(req, r, ms, j, seen0);
        return;
      }
    }
    assert ms[..|ms|] == ms;
  }

  /** The `set` command's handling of one milestone `m` of repository `r`;
      when it stops the run, `m` is a candidate whose edit failed. */
  method SetOne(title: string, newDueOn: Timestamp, yes: bool, remote: Remote, r: RepoName, m: Milestone,
                c0: nat, edits0: seq<EditCall>, lines0: seq<Line>, ghost seen0: seq<Event>)
    returns (status: Status, c: nat, edits: seq<EditCall>, lines: seq<Line>, ghost seen: seq<Event>)
    requires NoAborts(Request(title, SetDueOn(newDueOn), yes), remote, seen0) && c0 == |seen0|
    requires Log(edits0, lines0, []) == HandledAll(Request(title, SetDueOn(newDueOn), yes), remote, seen0)
    ensures var req := Request(title, SetDueOn(newDueOn), yes);
      && NoAborts(req, remote, seen) && c == |seen|
      && (status.Success? ==>
        && seen == seen0 + Chosen(req, r, m)
        && Log(edits, lines, []) == HandledAll(req, remote, seen))
      && (status.Failure? ==>
        && seen == seen0
        && Chosen(req, r, m) == [Candidate(r, m)]
        && Aborts(req, remote, Candidate(r, m))
        && status == Failure(ErrorOf(req, remote, Candidate(r, m)))
        && Log(edits, lines, []) == Then(HandledAll(req, remote, seen), Aborted(req, remote, Candidate(r, m))))
  {
    ghost var req := Request(title, SetDueOn(newDueOn), yes);
    c, edits, lines, seen := c0, edits0, lines0, seen0;
    status := Success;
    var t, n, s, d := m.title, m.number, m.state, m.dueOn;
    if t == title && s == "open" && d != newDueOn {
      if yes {
        var call := EditCall(r, n, NewDueOn(newDueOn));
        edits := edits + [call];
        var ok := remote.edit(call);
        if !ok {
          return Failure(EditFailed(t, n, r)), c, edits, lines, seen;
        }
        lines := lines + [DueChange(true, t, n, r, d, newDueOn)];
      } else {
        lines := lines + [DueChange(false, t, n, r, d, newDueOn)];
      }
      c := c + 1;
      HandledAllSnoc(req, remote, seen, Candidate(r, m));
      seen := seen + [Candidate(r, m)];
    } else {
      assert seen0 + Chosen(req, r, m) == seen0;
    }
  }
  /** The `close` command: close every open milestone titled `title`, warning
      about each issue still filed under it, or, without the confirmation
      flag, report what would be closed. Any listing or edit failure ends
      the command. */
  method CloseMilestone(target: string, title: string, yes: bool, remote: Remote)
    returns (report: Report)
    requires '/' !in target ==> Terminates(remote.pages)
    ensures report == Planned(target, Request(title, Close, yes), remote)
  {
    var res, _ := GetRepos(target, remote.pages);
    if res.Err? {
      return Report(Failure(res.error), NoLog);
    }
    report := CloseInRepos(title, yes, remote, res.value);
  }

  /** The `close` command's pass over the resolved repositories, in order. */
  method CloseInRepos(title: string, yes: bool, remote: Remote, repos: seq<RepoName>)
    returns (report: Report)
    ensures var req := Request(title, Close, yes);
      report == Run(req, remote, Events(req, repos, remote.milestones))
  {
    ghost var req := Request(title, Close, yes);
    var c: nat := 0;
    var edits: seq<EditCall> := [];
    var lines: seq<Line> := [];
    var warnings: seq<Warning> := [];
    ghost var seen: seq<Event> := [];
    for i := 0 to |repos|
      invariant seen == Events(req, repos[..i], remote.milestones)
      invariant NoAborts(req, remote, seen)
      invariant c == |seen|
      invariant Log(edits, lines, warnings) == HandledAll(req, remote, seen)
    {
      var r := repos[i];
      EventsAt(req, repos, remote.milestones, i);
      var l := remote.milestones(r);
      if l.ListingFailed? {
        RunStopsInRepo(req, remote, repos, i, seen, Unlisted(r), []);
        ThenNoLog(HandledAll(req, remote, seen));
        return Report(Failure(ListMilestonesFailed(r)), Log(edits, lines, warnings));
      }
      var status;
      ghost var stop, rest;
      status, c, edits, lines, warnings, seen, stop, rest :=
        CloseInRepo(title, yes, remote, r, l.milestones, c, edits, lines, warnings, seen);
      if status.Failure? {
        RunStopsInRepo(req, remote, repos, i, seen, stop, rest);
        return Report(status, Log(edits, lines, warnings));
      }
    }
    assert repos[..|repos|] == repos;
    RunCompletes(req, remote, seen);
    if c > 0 {
      lines := lines + [CloseSummary(c, yes)];
    }
    report := Report(Success, Log(edits, lines, warnings));
  }

  /** The `close` command's pass over one repository's milestones,
      continuing a run that has handled `seen0`. When it stops, `stop` is the
      event that stopped it and `rest` the events of this repository it did
      not reach. */
  method CloseInRepo(title: string, yes: bool, remote: Remote, r: RepoName, ms: seq<Milestone>,
                     c0: nat, edits0: seq<EditCall>, lines0: seq<Line>, warnings0: seq<Warning>, ghost seen0: seq<Event>)
    returns (status: Status, c: nat, edits: seq<EditCall>, lines: seq<Line>, warnings: seq<Warning>,
             ghost seen: seq<Event>, ghost stop: Event, ghost rest: seq<Event>)
    requires NoAborts(Request(title, Close, yes), remote, seen0) && c0 == |seen0|
    requires Log(edits0, lines0, warnings0) == HandledAll(Request(title, Close, yes), remote, seen0)
    ensures var req := Request(title, Close, yes);
      && NoAborts(req, remote, seen) && c == |seen|
      && (status.Success? ==>
        && seen == seen0 + CandidatesIn(req, r, ms)
        && Log(edits, lines, warnings) == HandledAll(req, remote, seen))
      && (status.Failure? ==>
        && seen0 + CandidatesIn(req, r, ms) == seen + [stop] + rest
        && Aborts(req, remote, stop)
        && status == Failure(ErrorOf(req, remote, stop))
        && Log(edits, lines, warnings) == Then(HandledAll(req, remote, seen), Aborted(req, remote, stop)))
  {
    ghost var req := Request(title, Close, yes);
    c, edits, lines, warnings, seen, stop, rest := c0, edits0, lines0, warnings0, seen0, Unlisted(r), [];
    status := Success;
    for j := 0 to |ms|
      invariant status.Success?
      invariant seen == seen0 + CandidatesIn(req, r, ms[..j])
      invariant NoAborts(req, remote, seen)
      invariant c == |seen|
      invariant Log(edits, lines, warnings) == HandledAll(req, remote, seen)
    {
      CandidatesStep(req, r, ms, j, seen0);
      status, c, edits, lines, warnings, seen := CloseOne(title, yes, remote, r, ms[j], c, edits, lines, warnings, seen);
      if status.Failure? {
        stop, rest := Candidate(r, ms[j]), CandidatesIn(req, r, ms[j + 1..]);
        CandidatesStopAt(req, r, ms, j, seen0);
        return;
      }
    }
    assert ms[..|ms|] == ms;
  }

  /** The `close` command's handling of one milestone `m` of repository `r`;
      when it stops the run, `m` is a candidate whose issue listing or close
      request failed. */
  method CloseOne(title: string, yes: bool, remote: Remote, r: RepoName, m: Milestone,
                  c0: nat, edits0: seq<EditCall>, lines0: seq<Line>, warnings0: seq<Warning>, ghost seen0: seq<Event>)
    returns (status: Status, c: nat, edits: seq<EditCall>, lines: seq<Line>, warnings: seq<Warning>, ghost seen: seq<Event>)
    requires NoAborts(Request(title, Close, yes), remote, seen0) && c0 == |seen0|
    requires Log(edits0, lines0, warnings0) == HandledAll(Request(title, Close, yes), remote, seen0)
    ensures var req := Request(title, Close, yes);
      && NoAborts(req, remote, seen) && c == |seen|
      && (status.Success? ==>
        && seen == seen0 + Chosen(req, r, m)
        && Log(edits, lines, warnings) == HandledAll(req, remote, seen))
      && (status.Failure? ==>
        && seen == seen0
        && Chosen(req, r, m) == [Candidate(r, m)]
        && Aborts(req, remote, Candidate(r, m))
        && status == Failure(ErrorOf(req, remote, Candidate(r, m)))
        && Log(edits, lines, warnings) == Then(HandledAll(req, remote, seen), Aborted(req, remote, Candidate(r, m))))
  {
    ghost var req := Request(title, Close, yes);
    c, edits, lines, warnings, seen := c0, edits0, lines0, warnings0, seen0;
    status := Success;
    var t, n, s := m.title, m.number, m.state;
    if t == title && s == "open" {
      var found := remote.issues(r, n);
      if found.IssuesFailed? {
        ThenNoLog(HandledAll(req, remote, seen));
        return Failure(ListIssuesFailed(t, r)), c, edits, lines, warnings, seen;
      }
      warnings := WarnIssues(r, t, found.issues, warnings);
      if yes {
        var call := EditCall(r, n, NewState("closed"));
        edits := edits + [call];
        var ok := remote.edit(call);
        if !ok {
          return Failure(CloseFailed(t, n, r)), c, edits, lines, warnings, seen;
        }
        lines := lines + [CloseLine(true, t, n, r)];
      } else {
        lines := lines + [CloseLine(false, t, n, r)];
      }
      c := c + 1;
      HandledAllSnoc(req, remote, seen, Candidate(r, m));
      seen := seen + [Candidate(r, m)];
    } else {
      assert seen0 + Chosen(req, r, m) == seen0;
    }
  }

  /** Appends one warning for each issue still filed under the milestone. */
  method WarnIssues(r: RepoName, title: string, issues: seq<int>, warnings0: seq<Warning>) returns (warnings: seq<Warning>)
    ensures warnings == warnings0 + IssueWarnings(r, title, issues)
  {
    warnings := warnings0;
    for k := 0 to |issues|
      invariant warnings == warnings0 + IssueWarnings(r, title, issues[..k])
    {
      assert IssueWarnings(r, title, issues[..k + 1]) == IssueWarnings(r, title, issues[..k]) + [IssueStillActive(issues[k], r, title)];
      warnings := warnings + [IssueStillActive(issues[k], r, title)];
    }
    assert issues[..|issues|] == issues;
  }
}
