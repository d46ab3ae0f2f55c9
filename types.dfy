/** Values shared by every part of the milestone reconciler: the records the
    hosting service returns, the calls made to it, and what the tool reports. */
module Types {

  /** A repository's full name, `owner/name`. */
  type RepoName = string

  /** A milestone due date; only equality matters to the reconciler. The value
      for a milestone without a due date is whatever the client library's
      zero time stands for. */
  type Timestamp = int

  /** One milestone record as the service lists it for one repository. */
  datatype Milestone = Milestone(title: string, number: int, state: string, dueOn: Timestamp)

  /** The answer to one request for a page of an organisation's repositories:
      the full names on that page and the number of the next page (0 when
      there is none), or a failed request. */
  datatype PageResponse = Page(names: seq<RepoName>, nextPage: nat) | PageFailed

  /** The answer to listing one repository's milestones. */
  datatype Listing = Listed(milestones: seq<Milestone>) | ListingFailed

  /** The answer to listing the issues filed under one milestone (their numbers). */
  datatype IssueListing = IssuesListed(issues: seq<int>) | IssuesFailed

  /** The field an edit request changes. */
  datatype Patch = NewDueOn(due: Timestamp) | NewState(state: string)

  /** One edit request sent to the service. */
  datatype EditCall = EditCall(repo: RepoName, number: int, patch: Patch)

  /** The hosting service as the tool sees it during one invocation: the
      responses to the organisation's page requests in the order they are
      made, each repository's milestone listing, each milestone's issue
      listing, and whether a given edit request succeeds. */
  datatype Remote = Remote(
    pages: seq<PageResponse>,
    milestones: RepoName -> Listing,
    issues: (RepoName, int) -> IssueListing,
    edit: EditCall -> bool)

  /** The errors a command can stop with. */
  datatype Error =
    | ListReposFailed(org: string)
    | ListMilestonesFailed(repo: RepoName)
    | EditFailed(title: string, number: int, repo: RepoName)
    | ListIssuesFailed(title: string, repo: RepoName)
    | CloseFailed(title: string, number: int, repo: RepoName)

  datatype Result<T> = Ok(value: T) | Err(error: Error)

  /** How a command ended. */
  datatype Status = Success | Failure(error: Error)

  /** Diagnostics written to the error stream; none of them stops a command. */
  datatype Warning =
    | StateDiffers(title: string, repo: RepoName, hasState: string, expectState: string, others: set<RepoName>)
    | DueDiffers(title: string, repo: RepoName, hasDue: Timestamp, expectDue: Timestamp, others: set<RepoName>)
    | MissingFrom(title: string, repo: RepoName)
    | IssueStillActive(issue: int, repo: RepoName, title: string)

  /** Lines written to the output stream. `done` tells the completed form
      ("changed", "closed", "set") from the dry-run form ("would ..."). */
  datatype Line =
    | ListLine(title: string, dueOn: Timestamp, repoList: string)
    | DueChange(done: bool, title: string, number: int, repo: RepoName, from: Timestamp, to: Timestamp)
    | SetSummary(count: nat, done: bool)
    | CloseLine(done: bool, title: string, number: int, repo: RepoName)
    | CloseSummary(count: nat, done: bool)
}
