# ghmm milestone reconciler, modelled in Dafny

`ghmm` treats the milestones of all repositories of a GitHub organisation as
one namespace: milestones with the same title in different repositories are
the same logical milestone. This project models the core of `main.go`:

- **Resolving the target** (`Repos`). An `owner/name` target stands for that
  single repository. An organisation name stands for every repository on
  every page of the organisation listing, fetched page by page until a page
  reports no next page.
- **`list`** (`Aggregate`). Every repository's milestones are folded into one
  record per title, with the first state and due date seen and the set of
  repositories that have the title. The fold warns when a later occurrence
  disagrees with the first one, then warns about every repository that lacks
  a title. It prints one line per title with the sorted, comma-joined list
  of repositories.
- **`set` and `close`** (`Planner`). These find, in every repository, the
  open milestones with the requested title that need the change. Without
  the `--yes` flag they report what they would do (dry run); with it they
  send the edit requests. Closing also warns about every issue still filed
  under the milestone. A summary line with the count ends a run that acted
  on something.

The hosting service appears as a `Remote` value:
- the answers to the organisation page requests, in order;
- a function giving each repository's milestone listing;
- a function giving each milestone's issue listing;
- a function telling whether an edit request succeeds.

What a command writes or sends is returned as data:
- the `Status` it ends with;
- the edit requests sent;
- the output `Line`s;
- the `Warning`s written to the error stream.

The imperative methods follow the loops of the source. Most of them are
proved equal to a reference function, and the properties are proved about
that function:
- `Planned`/`Run` over the run's `Events` for `set` and `close`;
- `FoldAll` over the `Occurrences` for the fold of `list`;
- `OrgListing`/`Resolve` for the target.

The second pass and the output of `list` have no reference function. Their
contracts describe the result directly:
- `ScanMissing` and `MissingFor` count the missing-repository warnings per
  title and repository (`MissingReported`);
- `CollectNames` and `RenderRepoList` give each title's sorted, joined
  repository list;
- `RenderView` and the success branch of `ListMilestones` give exactly one
  line per title (`ListedOnce`).

Two behaviours of `main.go` shape the model:
- **Every failure stops the command.** A failed repository listing, a failed
  milestone or issue listing, or a failed edit request ends the whole
  command with that error, after whatever was already written and sent.
  Nothing is skipped and continued.
- **The canonical state of a title depends on the order in which
  repositories are visited.** The first occurrence fixes the state and due
  date. `Aggregate.CanonicalDependsOnOrder` exhibits two orders of the same
  listings that give different canonical states. Only the key set and the
  per-title repository sets are order-free (`Aggregate.FoldOrderIndependent`).

## Model

| member | source | states |
|---|---|---|
| Strings.IndexOf | main.go:144 | the result is -1 exactly when the character is absent; otherwise it is the position of its first occurrence |
| Repos.Owner | main.go:142-145 | reference definition of the owner part: the name up to its first `/`; its properties are stated by `Repos.OwnerRepoSplit` and `Repos.OwnerRepoOfFullName` |
| Repos.Repo | main.go:147-150 | reference definition of the repository part: the name after its first `/`; its properties are stated by `Repos.OwnerRepoSplit` and `Repos.OwnerRepoOfFullName` |
| Repos.OwnerRepoSplit | main.go:142-150 | the owner part has no `/`, and owner + `/` + repository part gives back the full name |
| Repos.OwnerRepoOfFullName | main.go:142-150 | for an owner without `/` and any repository name, `Owner` and `Repo` of the joined name recover both parts |
| Repos.StopIndex | main.go:160-172 | the page loop stops at the first response that is a failure or has no next page, and at no earlier one |
| Repos.OrgListing | main.go:159-172 | reference definition of an organisation listing: the pages' names in order up to the page that ends the loop, or the error of a failed page; its properties are stated by `Repos.StopIndex`, `Repos.OrgListingAllOrNothing` and `Repos.AllNamesLength` |
| Repos.Resolve | main.go:152-175 | reference definition of target resolution: `[target]` for a name with `/`, the organisation listing otherwise; `Repos.GetRepos` is proved equal to it |
| Repos.OrgListingAllOrNothing | main.go:159-174 | an organisation listing is an error when the page that ends the loop failed, and otherwise the in-order concatenation of the names on every page up to and including it; no partial list is ever returned |
| Repos.AllNamesLength | main.go:165-167 | the listing holds as many names as the pages hold together |
| Repos.GetRepos | main.go:152-175 | returns `Resolve` of the target: `[target]` with no page request for `owner/name`, and otherwise the organisation listing; the page cursor sent is 0 first and then each page's next-page number, and exactly as many pages are requested as the loop reaches |
| Strings.Below | main.go:258 | reference definition of the order `sort.Strings` uses: character by character, a proper prefix first; its properties are stated by `Strings.BelowIrreflexive`, `Strings.BelowTransitive` and `Strings.BelowTotal` |
| Strings.BelowIrreflexive | main.go:258 | no name sorts before itself |
| Strings.BelowTransitive | main.go:258 | the name order is transitive |
| Strings.BelowTotal | main.go:258 | any two different names are ordered one way or the other |
| Strings.AtMostTransitive | main.go:258 | the non-strict name order is transitive |
| Strings.Insert | main.go:258 | inserting into a sorted sequence keeps it sorted and adds exactly the one element |
| Strings.Sort | main.go:258 | the result is sorted and a permutation of the input |
| Strings.SortDistinct | main.go:254-258 | sorting names without repetition gives a strictly increasing sequence |
| Strings.StrictlySortedUnique | main.go:253-258 | two strictly sorted sequences with the same elements are equal, so the rendered list does not depend on the map's iteration order |
| Strings.JoinSnoc | main.go:259-265 | appending a name adds a comma before it, except for the first name |
| Strings.Join | main.go:259-265 | reference definition of the comma-joined list; its properties are stated by `Strings.JoinSnoc`, `Strings.SplitJoin`, `Strings.JoinSeparators` and `Strings.JoinCommaCount`, and `Aggregate.JoinNames` proves the loop equal to it |
| Strings.SplitJoin | main.go:259-265 | cutting the joined list of comma-free names at its commas gives the names back |
| Strings.JoinSeparators | main.go:259-265 | joining non-empty, comma-free names leaves no leading, trailing or doubled comma |
| Strings.JoinCommaCount | main.go:259-265 | a joined list of n comma-free names has exactly n-1 commas |
| Aggregate.Absorb | main.go:217-239 | reference definition of one step of the fold: a new title gets the occurrence's state, due date and repository; a known one gains the repository and at most one warning; its properties are stated by `Aggregate.FoldTitles`, `Aggregate.FoldRepos`, `Aggregate.FoldCanonical` and `Aggregate.FoldWarnings` |
| Aggregate.FoldAll | main.go:210-241 | reference definition of the fold over all occurrences in visiting order; its properties are stated by `Aggregate.FoldTitles`, `Aggregate.FoldRepos`, `Aggregate.FoldCanonical`, `Aggregate.FoldWarnings`, `Aggregate.FoldWarningBound` and `Aggregate.FoldOrderIndependent`, and `Aggregate.FoldRepo` and `Aggregate.FoldListings` prove the loops equal to it |
| Aggregate.FirstIndex | main.go:219 | the position of a title's first occurrence, or -1 when it never occurs |
| Aggregate.FoldTitles | main.go:217-239 | the folded view has exactly the titles that occur |
| Aggregate.FoldRepos | main.go:232-237 | each title's repository set is exactly the set of repositories in which it occurs |
| Aggregate.FoldCanonical | main.go:233-238 | each title keeps the state and due date of its first occurrence; later occurrences never change them |
| Aggregate.FoldWarnings | main.go:220-231 | the fold warns about a repeated title with a state warning when its state differs from the first occurrence's, and otherwise with a due-date warning when its due date differs. It never gives both for one occurrence. Each warning names the repositories that had the title before |
| Aggregate.FoldWarningBound | main.go:217-239 | warnings plus titles never outnumber the occurrences |
| Aggregate.FoldOrderIndependent | main.go:210-241 | visiting the same occurrences in any order gives the same titles and the same repository set per title |
| Aggregate.CanonicalDependsOnOrder | main.go:217-239 | an open and a closed "0.20" give canonical state "open" in one order and "closed" in the other |
| Aggregate.FirstUnlisted | main.go:211-215 | the position of the first repository whose milestone listing fails, with every earlier listing successful |
| Aggregate.FirstUnlistedAt | main.go:211-215 | a position before which every listing succeeds and at which one fails is the first failing one |
| Aggregate.Occurrences | main.go:211-217 | reference definition of the visiting order: every milestone of every listed repository, repository by repository, in listing order; `Aggregate.FoldListings` proves the loop folds exactly these, up to the first failed listing |
| Aggregate.FoldListings | main.go:210-241 | the view and warnings are the fold of every repository's occurrences up to the first failed listing; the status names that repository, or is success when there is none |
| Aggregate.FoldRepo | main.go:217-240 | the loop over one repository's milestones extends the fold by exactly that repository's occurrences |
| Aggregate.ScanMissing | main.go:243-250 | one missing-repository warning per title and per repository position that lacks the title, and nothing else |
| Aggregate.MissingFor | main.go:245-249 | for one title, one missing-repository warning per repository position outside the title's repository set, and nothing else |
| Aggregate.Enumerate | main.go:185-187 | a listing of a set without repetition |
| Aggregate.SortedListing | main.go:254-258 | the one strictly sorted listing of a set |
| Aggregate.CollectNames | main.go:254-257 | collects every member of the repository set exactly once |
| Aggregate.JoinNames | main.go:259-265 | the concatenation loop builds the comma-joined list |
| Aggregate.SortedNames | main.go:254-258 | sorting the collected names gives the set's sorted listing, whatever order they were collected in |
| Aggregate.RenderRepoList | main.go:254-265 | the rendered list is the comma join of the strictly sorted repository set, each member exactly once |
| Aggregate.RenderView | main.go:252-268 | one output line per title, with its due date and rendered repository list |
| Aggregate.ListMilestones | main.go:200-271 | a target that cannot be resolved gives that error and no output; a failed listing gives that error after the divergence warnings so far; otherwise the divergence warnings, then the missing-repository warnings, then one line per title |
| Planner.IsCandidate | main.go:292 | reference definition of a candidate: the requested title, state "open" and, for `set`, a due date other than the requested one (for `close`, main.go:341, no date test); its properties are stated by `Planner.CandidatesMembers`, `Planner.EventsAreCandidates`, `Planner.CandidatesAreEvents` and `Planner.CandidatesCount` |
| Planner.Events | main.go:283-309 | reference definition of what a run acts on: each repository in order gives its failed listing or its candidates in listing order; its properties are stated by `Planner.EventsAreCandidates`, `Planner.CandidatesAreEvents`, `Planner.EventsIgnoreConfirmation` and `Planner.EventsAt` |
| Planner.Run | main.go:283-317 | reference definition of a run over its events: handle each until one stops the run, then the summary when the run was not stopped and the count is positive; its properties are stated by `Planner.RunCompletes`, `Planner.RunStopsAt`, `Planner.RunSucceedsIff`, `Planner.CompletedRun`, `Planner.SummaryOnlyAtEnd`, `Planner.SummaryWritten`, `Planner.DryRunSendsNoEdit` and `Planner.SetNeverWarns` |
| Planner.Planned | main.go:273-320 | reference definition of a whole `set` or `close` command: resolve the target, then run over its repositories; `Planner.SetMilestone` and `Planner.CloseMilestone` are proved equal to it, and `Planner.DueScenarioRun` and `Planner.CloseScenarioRun` evaluate it on examples |
| Planner.CandidatesIn | main.go:290-292 | reference definition of the filter over one repository's milestones: the candidates, in listing order; its properties are stated by `Planner.CandidatesMembers`, `Planner.CandidatesCount` and `Planner.CandidatesAt` |
| Planner.CandidatesMembers | main.go:290-292 | a repository's events are exactly its candidate milestones: requested title, state "open" and, for `set`, a due date other than the requested one |
| Planner.EventsAreCandidates | main.go:284-308 | with every listing successful, every event of the run is a candidate milestone listed in one of the repositories: nothing else is acted on |
| Planner.CandidatesAreEvents | main.go:284-292 | every candidate milestone of every repository whose listing succeeds is an event of the run; closed milestones, other titles and milestones already due on the requested date are the only ones skipped. Events after the first one that stops the run are not handled (`Planner.RunStopsAt`) |
| Planner.CandidatesCount | main.go:290-307 | a repository contributes one event per candidate milestone, so the count is the number of candidates |
| Planner.EventsIgnoreConfirmation | main.go:290-307 | a dry run and a confirmed run see the same events; a confirmed run can still stop earlier, at a failed edit |
| Planner.CleanLength | main.go:284-308 | the number of events handled before the first that stops the run |
| Planner.RunCompletes | main.go:309-317 | a run that nothing stops handles every event and ends with the summary when the count is positive |
| Planner.Aborts | main.go:286-288 | reference definition of what stops a run: a failed milestone listing, a failed issue listing for a milestone being closed (main.go:345-347), or, with the flag, a failed edit (main.go:296-298, 357-359); its properties are stated by `Planner.RunStopsAt` and `Planner.RunSucceedsIff` |
| Planner.ErrorOf | main.go:286-288 | reference definition of the error a stopping event ends the run with: the failed repository listing, the failed issue listing (main.go:345-347), or the failed due-date edit or close (main.go:296-298, 357-359); its properties are stated by `Planner.RunStopsAt` and `Planner.RunSucceedsIff` |
| Planner.Handled | main.go:293-306 | reference definition of handling a candidate that does not stop the run: its issue warnings when closing (main.go:344-351), its edit request only with the flag, then its change line; its properties are stated by `Planner.HandledLines`, `Planner.HandledEdits` and `Planner.DryRunSendsNoEdit` |
| Planner.Aborted | main.go:293-298 | reference definition of what a stopping event writes and sends first: nothing for a failed listing, the issue warnings and the failed edit request for a failed edit (main.go:348-358); its properties are stated by `Planner.RunStopsAt` and `Planner.DryRunSendsNoEdit` |
| Planner.RunStopsAt | main.go:286-298 | a run stops with the error of the first event that stops it, after handling the ones before; nothing after it is handled and no summary is written |
| Planner.RunStopsInRepo | main.go:284-298 | a run that stops inside one repository stops there whatever the later repositories hold |
| Planner.RunSucceedsIff | main.go:273-320 | a run succeeds exactly when no event stops it |
| Planner.HandledLines | main.go:299-303 | handling events that do not stop the run writes one change line per event, in order, naming its milestone, repository and change |
| Planner.HandledEdits | main.go:293-298 | handling events that do not stop the run sends, with the flag, one edit request per event in order, carrying the requested change; without the flag it sends none |
| Planner.HandledSetWarnings | main.go:290-308 | handling `set` events writes no warning |
| Planner.CompletedRun | main.go:292-317 | a completed run writes one change line per candidate, then the summary with their number when there was one. With the flag it sends exactly one edit request per candidate, carrying the new due date or state "closed"; without the flag it sends none |
| Planner.DryRunSendsNoEdit | main.go:293-304 | without the flag no edit request is sent, whether the run completes or stops |
| Planner.SetNeverWarns | main.go:273-320 | `set` writes no warning |
| Planner.SummaryOnlyAtEnd | main.go:311-317 | the summary is written only as the last line of a run that was not stopped, only after at least one change line, and counts the change lines before it |
| Planner.SummaryWritten | main.go:311-317 | a run that was not stopped and acted on at least one candidate ends with the summary line counting them |
| Planner.CompletedRunWarnings | main.go:332-378 | a run that nothing stops writes exactly the warnings of handling its events, so the three lemmas below describe every warning of a completed close run |
| Planner.CloseWarningCount | main.go:344-351 | for the candidates a close run handles before any stop, it warns once for every issue listed under each |
| Planner.CloseWarningKinds | main.go:348-351 | every warning from the candidates a close run handles before any stop is about an issue under the requested title |
| Planner.CloseWarningMembers | main.go:339-351 | for the candidates a close run handles before any stop, it warns about an issue exactly when the issue is listed under one of them |
| Planner.IssueWarningsMembers | main.go:348-351 | the warnings for one milestone name exactly its listed issues and its repository |
| Planner.DueScenarioRun | main.go:273-320 | M42 open in two repositories and moved to a new date: two change lines and a summary counting 2; two edit requests with the flag, none without |
| Planner.CloseScenarioRun | main.go:322-379 | M42 open with one issue in `acme/a` and closed in `acme/b`: one issue warning for `acme/a`, one close, a summary counting 1; `acme/b` is skipped |
| Planner.SetMilestone | main.go:273-320 | the `set` command's outcome, output, warnings and edit requests are those of `Planned` for a due-date request |
| Planner.SetInRepos | main.go:283-317 | the loop over the repositories produces `Run` of the run's events |
| Planner.SetInRepo | main.go:290-308 | the loop over one repository's milestones handles that repository's candidates in order, or stops at the first failed edit |
| Planner.SetOne | main.go:291-307 | one milestone: nothing unless it is a candidate; otherwise the dry-run line, or the edit request and then the completed line or the stop |
| Planner.CloseMilestone | main.go:322-379 | the `close` command's outcome, output, warnings and edit requests are those of `Planned` for a close request |
| Planner.CloseInRepos | main.go:332-376 | the loop over the repositories produces `Run` of the run's events |
| Planner.CloseInRepo | main.go:339-367 | the loop over one repository's milestones handles its candidates in order, or stops at the first failed issue listing or close |
| Planner.CloseOne | main.go:340-365 | one milestone: nothing unless it is an open title match; otherwise list its issues and warn about each, then the dry-run line, or the close request and then the completed line or the stop |
| Planner.WarnIssues | main.go:348-351 | appends one warning per listed issue, in order |

## Left out

- Command-line parsing, argument-count checks and the command set-up (main.go:26-127) are not part of this model. The `open` command (`doOpenMilestone`, main.go:381-384) always fails with "not yet implemented" before any request; it is not modelled.
- The API client, OAuth token handling and HTTP are not part of this model (main.go:129-138). The service's answers are inputs (`Remote`). Only whether an edit succeeds is modelled, not the milestone record the service sends back.
- An edit request is modelled as the one field it changes (`NewDueOn` or `NewState("closed")`). The source sends the whole milestone record with that field replaced.
- Each repository's milestone listing and each milestone's issue listing is whatever the service returns for a single request. The source passes no page option (the issue request carries only the milestone number, main.go:343), so only the service's first page of milestones and of issues is seen; which milestones and issues that page holds, such as open ones only, is not modelled.
- Date parsing (`parseMilestoneDueOn`, main.go:191-198) and date formatting on output are not modelled. A due date is an opaque `Timestamp` compared only for equality.
- The exact message text and the split between output and error streams are modelled as structured `Line` and `Warning` values.
- Go map iteration order is not modelled. The methods pick titles in an unspecified order. Their contracts count warnings per title and repository, and lines per title, without fixing an order.
- Repos.GetRepos: for an organisation target it requires that some page response ends the loop (a failure or a page with no next page). A service that always reports a next page would make the source loop forever.
- The counter `c` is a Go `int`; the model uses an unbounded `nat`, because a count past 2^63 is not reachable with real listings.
- Listings are a fixed snapshot for the whole command: `Remote.milestones` gives a repository the same listing every time it is visited. The source lists milestones again for each entry of the repository list (main.go:285, 334), so a later listing of the same repository shows the command's own edits. The model does not see them. For a repository named twice in the organisation listing, a `--yes` run in the model acts on the same milestone again (a second edit, counted twice), where the source finds it already closed or already moved. Dry runs, `owner/name` targets and `list` are unaffected.
- Repos.Owner and Repos.Repo require a `/` in the name. The commands look up listings by the full name and never call them. So for a listed name without `/`, the model lists that repository's milestones, where the source would panic in `Owner()` (main.go:212, 285, 334).
