/** Resolving the command's target, `owner/name` or an organisation, to the
    repositories the command works on. */
module Repos {
  import opened Types
  import opened Strings

  /** The owner part of a full name: everything before the first `/`. */
  function Owner(r: RepoName): string
    requires '/' in r
  {
    r[..IndexOf(r, '/')]
  }

  /** The repository part of a full name: everything after the first `/`. */
  function Repo(r: RepoName): string
    requires '/' in r
  {
    r[IndexOf(r, '/') + 1..]
  }

  /** Splitting a full name at its first `/` loses nothing: the owner has no
      `/`, and owner and repository put back together give the name again. */
  lemma OwnerRepoSplit(r: RepoName)
    requires '/' in r
    ensures '/' !in Owner(r)
    ensures r == Owner(r) + "/" + Repo(r)
  {
    var i := IndexOf(r, '/');
    assert r == r[..i] + [r[i]] + r[i + 1..];
  }

  /** Owner and repository recover the parts of a name built from an owner
      without `/` and any repository name (which may itself hold `/`). */
  lemma {:induction false} OwnerRepoOfFullName(owner: string, name: string)
    requires '/' !in owner
    ensures var r := owner + "/" + name;
      '/' in r && Owner(r) == owner && Repo(r) == name
  {
    var r := owner + "/" + name;
    assert r[|owner|] == '/';
    var i := IndexOf(r, '/');
    assert forall k :: 0 <= k < |owner| ==> r[k] == owner[k];
    assert forall k :: 0 <= k < i ==> r[..i][k] == r[k];
    assert i == |owner|;
    assert r[..i] == owner;
    assert r[i + 1..] == name;
  }

  // ---------------------------------------------------------------------
  // Paginated organisation listing

  /** A response that ends the page loop: a failure, or a page with no next page. */
  predicate IsLast(p: PageResponse)
  {
    p.PageFailed? || p.nextPage == 0
  }

  /** The responses include one that ends the page loop. */
  predicate Terminates(pages: seq<PageResponse>)
    decreases |pages|
  {
    |pages| > 0 && (IsLast(pages[0]) || Terminates(pages[1..]))
  }

  /** The position of the response that ends the page loop. */
  function StopIndex(pages: seq<PageResponse>): (k: nat)
    requires Terminates(pages)
    ensures k < |pages| && IsLast(pages[k])
    ensures forall j :: 0 <= j < k ==> !IsLast(pages[j])
    decreases |pages|
  {
    if IsLast(pages[0]) then 0
    else
      var k := StopIndex(pages[1..]);
      assert forall j :: 1 <= j < k + 1 ==> pages[j] == pages[1..][j - 1];
      k + 1
  }

  /** The names on the successful pages, in order. */
  function AllNames(pages: seq<PageResponse>): seq<RepoName>
  {
    if pages == [] then []
    else (if pages[0].Page? then pages[0].names else []) + AllNames(pages[1..])
  }

  function Prefixed(names: seq<RepoName>, r: Result<seq<RepoName>>): Result<seq<RepoName>>
  {
    match r
    case Ok(rest) => Ok(names + rest)
    case Err(e) => Err(e)
  }

  lemma PrefixedAppend(a: seq<RepoName>, b: seq<RepoName>, r: Result<seq<RepoName>>)
    ensures Prefixed([], r) == r
    ensures Prefixed(a, Prefixed(b, r)) == Prefixed(a + b, r)
  {
    if r.Ok? {
      assert [] + r.value == r.value;
      assert a + (b + r.value) == (a + b) + r.value;
    }
  }

  /** What listing an organisation's repositories page by page yields. */
  function OrgListing(org: string, pages: seq<PageResponse>): Result<seq<RepoName>>
    requires Terminates(pages)
    decreases |pages|
  {
    match pages[0]
    case PageFailed => Err(ListReposFailed(org))
    case Page(names, next) =>
      if next == 0 then Ok(names) else Prefixed(names, OrgListing(org, pages[1..]))
  }

  /** The repositories a target stands for. */
  function Resolve(target: string, pages: seq<PageResponse>): Result<seq<RepoName>>
    requires '/' !in target ==> Terminates(pages)
  {
    if '/' in target then Ok([target]) else OrgListing(target, pages)
  }

  /** An organisation listing is all or nothing: when the page that ends the
      loop is a failure, the whole listing fails; otherwise it is the in-order
      concatenation of every page up to and including that one. */
  lemma {:induction false} OrgListingAllOrNothing(org: string, pages: seq<PageResponse>)
    requires Terminates(pages)
    ensures var k := StopIndex(pages);
      OrgListing(org, pages) ==
        if pages[k].PageFailed? then Err(ListReposFailed(org)) else Ok(AllNames(pages[..k + 1]))
  {
    var k := StopIndex(pages);
    if k == 0 {
      assert pages[..1] == [pages[0]];
      assert pages[..1][1..] == [];
      if pages[0].Page? {
        assert AllNames(pages[..1]) == pages[0].names + AllNames([]);
        assert pages[0].names + [] == pages[0].names;
        assert OrgListing(org, pages) == Ok(pages[0].names);
      }
    } else {
      var tail := pages[1..];
      assert !IsLast(pages[0]);
      assert StopIndex(tail) == k - 1;
      OrgListingAllOrNothing(org, tail);
      assert pages[..k + 1][1..] == tail[..k];
      assert pages[..k + 1][0] == pages[0];
    }
  }

  /** The listing's length is the sum of the page lengths. */
  lemma {:induction false} AllNamesLength(pages: seq<PageResponse>)
    requires forall j :: 0 <= j < |pages| ==> pages[j].Page?
    ensures |AllNames(pages)| == PageSizes(pages)
  {
    if pages != [] {
      AllNamesLength(pages[1..]);
    }
  }

  function PageSizes(pages: seq<PageResponse>): nat
    requires forall j :: 0 <= j < |pages| ==> pages[j].Page?
  {
    if pages == [] then 0 else |pages[0].names| + PageSizes(pages[1..])
  }

  /** Resolves a target as `getRepos` does. `requested` logs the page cursor
      sent with each organisation-listing request. */
  method GetRepos(target: string, pages: seq<PageResponse>) returns (res: Result<seq<RepoName>>, requested: seq<nat>)
    requires '/' !in target ==> Terminates(pages)
    ensures res == Resolve(target, pages)
    ensures '/' in target ==> res == Ok([target]) && requested == []
    ensures '/' !in target ==>
      && |requested| == StopIndex(pages) + 1
      && requested[0] == 0
      && forall i :: 0 < i < |requested| ==> pages[i - 1].Page? && requested[i] == pages[i - 1].nextPage
  {
    requested := [];
    if IndexOf(target, '/') != -1 {
      return Ok([target]), requested;
    }
    var repos: seq<RepoName> := [];
    var page: nat := 0;
    var i := 0;
    assert pages[i..] == pages;
    PrefixedAppend(repos, repos, OrgListing(target, pages));
    while true
      invariant 0 <= i < |pages| && Terminates(pages[i..])
      invariant forall j :: 0 <= j < i ==> !IsLast(pages[j])
      invariant OrgListing(target, pages) == Prefixed(repos, OrgListing(target, pages[i..]))
      invariant |requested| == i
      invariant page == if i == 0 then 0 else pages[i - 1].nextPage
      invariant forall j :: 0 < j < i ==> pages[j - 1].Page? && requested[j] == pages[j - 1].nextPage
      invariant i > 0 ==> requested[0] == 0
      decreases |pages| - i
    {
      var resp := pages[i];
      requested := requested + [page];
      if resp.PageFailed? {
        return Err(ListReposFailed(target)), requested;
      }
      ghost var before := repos;
      repos := repos + resp.names;
      if resp.nextPage == 0 {
        break;
      }
      assert pages[i..][1..] == pages[i + 1..];
      assert OrgListing(target, pages[i..]) == Prefixed(resp.names, OrgListing(target, pages[i + 1..]));
      PrefixedAppend(before, resp.names, OrgListing(target, pages[i + 1..]));
      page := resp.nextPage;
      i := i + 1;
    }
    return Ok(repos), requested;
  }
}
