/** The hosting-service client as seen by the engine: a fresh fetch of one
    pull request (an oracle over the service's current data), and append-only
    logs of the comments posted and the pull requests closed. */
module Vcs {
  import opened Entities

  /** A comment posted on a pull request. */
  datatype Comment = Comment(repositoryFullName: string, prNumber: nat, body: string)

  /** A request to close a pull request. */
  datatype Closure = Closure(repositoryFullName: string, prNumber: nat)

  /** What `getPullRequest(repo, number)` returns when the service's data for
      that pull request is `fetch(repo, number)`: the client fills in the
      repository name it was asked for, and the service answers for the
      number it was asked for. */
  function Fetched(fetch: (string, nat) -> PullRequest, repo: string, number: nat): (pr: PullRequest)
    ensures pr.repositoryFullName == repo && pr.number == number
    ensures pr.updatedAt == fetch(repo, number).updatedAt
    ensures pr.inactivityDays == fetch(repo, number).inactivityDays
    ensures pr.labels == fetch(repo, number).labels
  {
    fetch(repo, number).(repositoryFullName := repo, number := number)
  }

  class GitHubClient {
    /** The service's current data for each pull request. */
    const fetch: (string, nat) -> PullRequest
    var comments: seq<Comment>
    var closures: seq<Closure>

    constructor (fetch: (string, nat) -> PullRequest)
      ensures this.fetch == fetch && comments == [] && closures == []
    {
      this.fetch := fetch;
      comments, closures := [], [];
    }

    /** `getPullRequest`: a fresh, uncached fetch. */
    method GetPullRequest(repo: string, number: nat) returns (pr: PullRequest)
      ensures pr == Fetched(fetch, repo, number)
    {
      pr := fetch(repo, number);
      pr := pr.(repositoryFullName := repo, number := number);
    }

    /** `postComment`: appends one comment and closes nothing. */
    method PostComment(repo: string, number: nat, message: string)
      modifies this
      ensures comments == old(comments) + [Comment(repo, number, message)]
      ensures closures == old(closures)
    {
      comments := comments + [Comment(repo, number, message)];
    }

    /** `closePR`: appends one closure and posts nothing. */
    method ClosePR(repo: string, number: nat)
      modifies this
      ensures closures == old(closures) + [Closure(repo, number)]
      ensures comments == old(comments)
    {
      closures := closures + [Closure(repo, number)];
    }
  }
}
