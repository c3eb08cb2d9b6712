/** The pull request as fetched from the hosting service, the tracking status
    and the persisted tracking record. */
module Entities {
  import opened Wrappers
  import opened Strings

  /** Milliseconds since the epoch; the source keeps ISO-8601 strings. */
  type Timestamp = int

  /** A pull request as the hosting client returns it. `inactivityDays` is
      computed by the client at fetch time; `labels` are the label names. */
  datatype PullRequest = PullRequest(
    id: int,
    repositoryFullName: string,
    number: nat,
    title: string,
    url: string,
    createdAt: Timestamp,
    updatedAt: Timestamp,
    inactivityDays: int,
    authorLogin: string,
    labels: seq<string>)

  /** The four lifecycle states of a tracked pull request. */
  datatype PullRequestStatus = Active | Warned | Executed | Immune

  /** The string each status is stored as. */
  function StatusName(s: PullRequestStatus): string {
    match s
    case Active => "ACTIVE"
    case Warned => "WARNED"
    case Executed => "EXECUTED"
    case Immune => "IMMUNE"
  }

  /** Reading a stored status string back. */
  function ParseStatus(s: string): Option<PullRequestStatus> {
    if s == "ACTIVE" then Some(Active)
    else if s == "WARNED" then Some(Warned)
    else if s == "EXECUTED" then Some(Executed)
    else if s == "IMMUNE" then Some(Immune)
    else None
  }

  /** Every status is stored as a string that reads back as that status, and
      only the four names read back as a status at all. */
  lemma StatusNameRoundTrip(st: PullRequestStatus, s: string)
    ensures ParseStatus(StatusName(st)) == Some(st)
    ensures ParseStatus(s) == Some(st) ==> s == StatusName(st)
    ensures ParseStatus(s).Some? <==> s in {"ACTIVE", "WARNED", "EXECUTED", "IMMUNE"}
  {
  }

  /** A persisted tracking record. */
  datatype PullRequestRecord = PullRequestRecord(
    id: string,
    repositoryFullName: string,
    prNumber: nat,
    status: PullRequestStatus,
    warningPostedAt: Option<Timestamp>,
    executedAt: Option<Timestamp>,
    lastCheckedAt: Timestamp)

  /** The store key of a pull request: `repository#number`, the repository
      name, then `#`, then the number's decimal digits. */
  function RecordKey(repositoryFullName: string, number: nat): (k: string)
    ensures |k| >= |repositoryFullName| + 2
    ensures k[..|repositoryFullName|] == repositoryFullName && k[|repositoryFullName|] == '#'
    ensures AllDigits(k[|repositoryFullName| + 1..])
    ensures DecimalValue(k[|repositoryFullName| + 1..]) == number
  {
    DecimalRoundTrip(number);
    var k := repositoryFullName + "#" + NatToDecimal(number);
    assert k[|repositoryFullName| + 1..] == NatToDecimal(number);
    k
  }

  /** The record is stored under the key of the pull request it names. */
  predicate KeyMatches(r: PullRequestRecord) {
    r.id == RecordKey(r.repositoryFullName, r.prNumber)
  }

  /** Distinct pull requests have distinct keys, even when a repository name
      contains `#`: the number after the last `#` has no `#` in it. */
  lemma KeyInjective(repo1: string, n1: nat, repo2: string, n2: nat)
    requires RecordKey(repo1, n1) == RecordKey(repo2, n2)
    ensures repo1 == repo2 && n1 == n2
  {
    var d1, d2 := NatToDecimal(n1), NatToDecimal(n2);
    var s := RecordKey(repo1, n1);
    assert s == repo1 + "#" + d1 && s == repo2 + "#" + d2;
    assert s[|s| - |d1| - 1] == '#' && s[|s| - |d2| - 1] == '#';
    assert |d1| == |d2|;
    assert repo1 == s[..|repo1|] == repo2;
    assert d1 == s[|repo1| + 1..] == d2;
    DecimalInjective(n1, n2);
  }
}
