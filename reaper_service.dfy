/** The reaper engine itself: a service over the hosting-service client and
    the record store whose two batch operations are proved to leave the
    client's logs and the store's table exactly as the folds of
    `ReaperSpec` say. The clock is a parameter: each operation runs at one
    instant `now`. */
module Reaper {
  import opened Wrappers
  import opened Entities
  import opened Config
  import opened RecordStore
  import opened Vcs
  import opened ReaperSpec

  class ReaperService {
    const gitHubClient: GitHubClient
    const prRepository: PullRequestRepository
    const config: Settings

    /** The service over a client, a store and the configuration read from
        `env`. */
    constructor (gitHubClient: GitHubClient, prRepository: PullRequestRepository, env: Env)
      ensures this.gitHubClient == gitHubClient && this.prRepository == prRepository
      ensures config == SettingsOf(env)
    {
      this.gitHubClient := gitHubClient;
      this.prRepository := prRepository;
      this.config := SettingsOf(env);
    }

    /** The part of the world the service acts on. */
    ghost function State(): World
      reads this, gitHubClient, prRepository
    {
      World(prRepository.table, gitHubClient.comments, gitHubClient.closures)
    }

    /** `findAndWarnAbandonedPRs` over the inactive pull requests the client
        listed: each immune one goes to the immunity transition, each other
        one without a record or with an ACTIVE record is warned. */
    method FindAndWarnAbandonedPRs(abandonedPRs: seq<PullRequest>, now: Timestamp)
      requires prRepository.Valid()
      modifies gitHubClient, prRepository
      ensures prRepository.Valid()
      ensures State() == Scan(old(State()), config, abandonedPRs, now)
    {
      var i := 0;
      while i < |abandonedPRs|
        invariant 0 <= i <= |abandonedPRs|
        invariant prRepository.Valid()
        invariant State() == Scan(old(State()), config, abandonedPRs[..i], now)
      {
        var pr := abandonedPRs[i];
        ghost var before := State();
        if HasImmunityLabel(config, pr) {
          MarkPrAsImmune(pr, now);
        } else {
          var record := prRepository.FindByRepoAndPrNumber(pr.repositoryFullName, pr.number);
          assert record == Get(before.table, pr.repositoryFullName, pr.number);
          if record.None? || record.value.status == Active {
            WarnPR(pr, now);
          }
        }
        assert State() == ScanCandidate(before, config, pr, now);
        ScanStep(old(State()), config, abandonedPRs, i, now);
        i := i + 1;
      }
      assert abandonedPRs[..i] == abandonedPRs;
    }

    /** `findAndExecuteWarned`: the WARNED records are read once, up front,
        and each is then reviewed against a fresh fetch of its pull request.
        The snapshot is returned so that callers can name it. */
    method FindAndExecuteWarned(now: Timestamp) returns (warnedRecords: seq<PullRequestRecord>)
      requires prRepository.Valid()
      modifies gitHubClient, prRepository
      ensures prRepository.Valid()
      ensures ListsStatus(old(prRepository.table), Warned, warnedRecords)
      ensures State() == Review(old(State()), config, gitHubClient.fetch, warnedRecords, now)
    {
      warnedRecords := prRepository.FindByStatus(Warned);
      var i := 0;
      while i < |warnedRecords|
        invariant 0 <= i <= |warnedRecords|
        invariant prRepository.Valid()
        invariant State() == Review(old(State()), config, gitHubClient.fetch, warnedRecords[..i], now)
      {
        ReviewWarnedRecord(warnedRecords[i], now);
        ReviewStep(old(State()), config, gitHubClient.fetch, warnedRecords, i, now);
        i := i + 1;
      }
      assert warnedRecords[..i] == warnedRecords;
    }

    /** The body of `findAndExecuteWarned`'s loop for one WARNED record:
        reactivation, then immunity, then the grace period, on a fresh fetch
        of its pull request. */
    method ReviewWarnedRecord(record: PullRequestRecord, now: Timestamp)
      requires prRepository.Valid()
      modifies gitHubClient, prRepository
      ensures prRepository.Valid()
      ensures State() == ReviewRecord(old(State()), config, gitHubClient.fetch, record, now)
    {
      var pr := gitHubClient.GetPullRequest(record.repositoryFullName, record.prNumber);
      if IsPRActive(pr, record) {
        prRepository.Update(record.(status := Active, lastCheckedAt := now));
      } else if HasImmunityLabel(config, pr) {
        MarkPrAsImmune(pr, now);
      } else if GraceExpired(record, now, config.executionThresholdDays) {
        ExecutePR(pr, record, now);
      }
    }

    /** `warnPR`: posts the templated warning, then creates the WARNED
        record. */
    method WarnPR(pr: PullRequest, now: Timestamp)
      requires prRepository.Valid()
      modifies gitHubClient, prRepository
      ensures prRepository.Valid()
      ensures State() == Warn(old(State()), config, pr, now)
    {
      var warningMessage := RenderDays(config.warningMessage, pr.inactivityDays);
      gitHubClient.PostComment(pr.repositoryFullName, pr.number, warningMessage);
      prRepository.Create(WarnedRecord(pr, now));
    }

    /** `executePR`: posts the templated closing comment, closes the pull
        request, then updates the record to EXECUTED. */
    method ExecutePR(pr: PullRequest, record: PullRequestRecord, now: Timestamp)
      requires prRepository.Valid()
      modifies gitHubClient, prRepository
      ensures prRepository.Valid()
      ensures State() == Execute(old(State()), config, pr, record, now)
    {
      var closingMessage := RenderDays(config.closingMessage, pr.inactivityDays);
      gitHubClient.PostComment(pr.repositoryFullName, pr.number, closingMessage);
      gitHubClient.ClosePR(pr.repositoryFullName, pr.number);
      prRepository.Update(record.(status := Executed, executedAt := Some(now), lastCheckedAt := now));
    }

    /** `markPrAsImmune`: reprieves a tracked pull request that is not yet
        IMMUNE, or silently starts tracking an untracked one as IMMUNE. */
    method MarkPrAsImmune(pr: PullRequest, now: Timestamp)
      requires prRepository.Valid()
      modifies gitHubClient, prRepository
      ensures prRepository.Valid()
      ensures State() == MarkImmune(old(State()), config, pr, now)
    {
      var record := prRepository.FindByRepoAndPrNumber(pr.repositoryFullName, pr.number);
      if record.Some? && record.value.status != Immune {
        var reprieveMessage := config.reprieveMessage;
        gitHubClient.PostComment(pr.repositoryFullName, pr.number, reprieveMessage);
        prRepository.Update(record.value.(status := Immune, lastCheckedAt := now));
      } else if record.None? {
        prRepository.Create(ImmuneRecord(pr, now));
      }
    }
  }

  /** The fold over one more candidate is one more scan step. */
  lemma ScanStep(w: World, config: Settings, candidates: seq<PullRequest>, i: nat, now: Timestamp)
    requires i < |candidates|
    ensures Scan(w, config, candidates[..i + 1], now) ==
              ScanCandidate(Scan(w, config, candidates[..i], now), config, candidates[i], now)
  {
    assert candidates[..i + 1][..i] == candidates[..i];
  }

  /** The fold over one more record is one more review step. */
  lemma ReviewStep(w: World, config: Settings, fetch: (string, nat) -> PullRequest,
                   records: seq<PullRequestRecord>, i: nat, now: Timestamp)
    requires i < |records|
    ensures Review(w, config, fetch, records[..i + 1], now) ==
              ReviewRecord(Review(w, config, fetch, records[..i], now), config, fetch, records[i], now)
  {
    assert records[..i + 1][..i] == records[..i];
  }
}
