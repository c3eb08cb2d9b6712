/** The reaper engine's decisions as functions: the state the engine acts on
    (the record table and the client's comment and closure logs), each
    transition, and the two batch operations as folds over their input
    sequences. The methods of `Reaper.ReaperService` are proved to compute
    exactly these. */
module ReaperSpec {
  import opened Wrappers
  import opened Strings
  import opened Entities
  import opened Config
  import opened RecordStore
  import opened Vcs

  /** The length of a day in timestamp units. */
  const DayMillis := 86_400_000

  /** What the engine reads from the configuration getters. The getters are
      functions of the environment, which does not change while the engine
      runs, so each of them returns the same value on every call. */
  datatype Settings = Settings(immunityLabels: seq<string>, warningMessage: string,
                               closingMessage: string, reprieveMessage: string,
                               executionThresholdDays: Option<int>)

  /** The getters' values for `env`. */
  function SettingsOf(env: Env): Settings {
    Settings(ImmunityLabels(env), WarningMessage(env), ClosingMessage(env), ReprieveMessage(env),
             ExecutionThresholdDays(env))
  }

  /** Everything the engine can change: the stored records and the comments
      and closures it has sent to the hosting service. */
  datatype World = World(table: Table, comments: seq<Comment>, closures: seq<Closure>)

  /** `template.replace('{{days}}', days.toString())`: a template without
      the placeholder is used verbatim; otherwise the result is the template
      with its first placeholder, of eight characters, swapped for the digits. */
  function RenderDays(template: string, days: int): (r: string)
    ensures IndexOf(template, "{{days}}").None? ==> r == template
    ensures IndexOf(template, "{{days}}").Some? ==>
              |r| == |template| - 8 + |IntToDecimal(days)| &&
              r[..IndexOf(template, "{{days}}").value] == template[..IndexOf(template, "{{days}}").value]
    ensures IndexOf(template, "{{days}}").Some? ==>
              r == template[..IndexOf(template, "{{days}}").value] + IntToDecimal(days) +
                   template[IndexOf(template, "{{days}}").value + 8..]
  {
    ReplaceFirst(template, "{{days}}", IntToDecimal(days))
  }

  /** `labels.some(l => immunity.includes(l))`: some label is exactly (case
      and all) one of the immunity labels. */
  function SomeLabelIn(labels: seq<string>, immunity: seq<string>): (b: bool)
    ensures b <==> exists i :: 0 <= i < |labels| && labels[i] in immunity
  {
    if labels == [] then false
    else labels[0] in immunity || SomeLabelIn(labels[1..], immunity)
  }

  /** `hasImmunityLabel`: one of the pull request's labels equals, case and
      all, one of the configured immunity labels. */
  function HasImmunityLabel(cfg: Settings, pr: PullRequest): (b: bool)
    ensures b <==> exists i, j :: 0 <= i < |pr.labels| && 0 <= j < |cfg.immunityLabels| &&
                                 pr.labels[i] == cfg.immunityLabels[j]
  {
    var b := SomeLabelIn(pr.labels, cfg.immunityLabels);
    assert b ==> exists i, j :: 0 <= i < |pr.labels| && 0 <= j < |cfg.immunityLabels| &&
                                pr.labels[i] == cfg.immunityLabels[j] by {
      if b {
        var i :| 0 <= i < |pr.labels| && pr.labels[i] in cfg.immunityLabels;
        var j :| 0 <= j < |cfg.immunityLabels| && pr.labels[i] == cfg.immunityLabels[j];
      }
    }
    b
  }

  /** `isPRActive`: updated strictly after the warning; a record without a
      warning time is never active. */
  function IsPRActive(pr: PullRequest, record: PullRequestRecord): (b: bool)
    ensures record.warningPostedAt.None? ==> !b
    ensures record.warningPostedAt.Some? ==> (b <==> pr.updatedAt > record.warningPostedAt.value)
  {
    record.warningPostedAt.Some? && pr.updatedAt > record.warningPostedAt.value
  }

  /** Whole days from `t` to `now`, rounded down: the largest count of days
      whose milliseconds fit in the elapsed time. */
  function DaysSince(t: Timestamp, now: Timestamp): (d: int)
    ensures d * DayMillis <= now - t < (d + 1) * DayMillis
  {
    (now - t) / DayMillis
  }

  /** `daysSinceWarning >= getExecutionThresholdDays()`. A missing warning
      time gives an invalid date and `NaN` days, and a `NaN` threshold
      compares false, so neither lets the grace period expire. */
  function GraceExpired(record: PullRequestRecord, now: Timestamp, threshold: Option<int>): (b: bool)
    ensures threshold.None? || record.warningPostedAt.None? ==> !b
    ensures threshold.Some? && record.warningPostedAt.Some? ==>
              (b <==> now - record.warningPostedAt.value >= threshold.value * DayMillis)
  {
    if record.warningPostedAt.Some? && threshold.Some? then
      GraceInMillis(now - record.warningPostedAt.value, threshold.value);
      DaysSince(record.warningPostedAt.value, now) >= threshold.value
    else false
  }

  /** Whole days of an elapsed time reach `n` exactly when the time reaches
      `n` days of milliseconds. */
  lemma GraceInMillis(e: int, n: int)
    ensures e / DayMillis >= n <==> e >= n * DayMillis
  {
    var q := e / DayMillis;
    assert DayMillis * q <= e < DayMillis * q + DayMillis;
    if q >= n {
      assert DayMillis * q >= DayMillis * n;
    } else {
      assert q + 1 <= n;
      assert DayMillis * (q + 1) <= DayMillis * n;
    }
  }

  /** The key of the record that tracks `pr`. */
  function KeyOf(pr: PullRequest): string {
    RecordKey(pr.repositoryFullName, pr.number)
  }

  /** The record `warnPR` creates: stored under the pull request's own key,
      WARNED, warned and checked at `now`, never executed. */
  function WarnedRecord(pr: PullRequest, now: Timestamp): (r: PullRequestRecord)
    ensures KeyMatches(r) && r.id == KeyOf(pr)
    ensures r.repositoryFullName == pr.repositoryFullName && r.prNumber == pr.number
    ensures r.status == Warned && r.warningPostedAt == Some(now)
    ensures r.executedAt.None? && r.lastCheckedAt == now
  {
    PullRequestRecord(KeyOf(pr), pr.repositoryFullName, pr.number, Warned, Some(now), None, now)
  }

  /** The record `markPrAsImmune` creates when there is none: stored under
      the pull request's own key, IMMUNE, checked at `now`, with neither a
      warning nor an execution time. */
  function ImmuneRecord(pr: PullRequest, now: Timestamp): (r: PullRequestRecord)
    ensures KeyMatches(r) && r.id == KeyOf(pr)
    ensures r.repositoryFullName == pr.repositoryFullName && r.prNumber == pr.number
    ensures r.status == Immune && r.warningPostedAt.None?
    ensures r.executedAt.None? && r.lastCheckedAt == now
  {
    PullRequestRecord(KeyOf(pr), pr.repositoryFullName, pr.number, Immune, None, None, now)
  }

  /** `warnPR`: the templated warning comment, then a fresh WARNED record. */
  function Warn(w: World, cfg: Settings, pr: PullRequest, now: Timestamp): (r: World)
    ensures r.table == w.table[KeyOf(pr) := WarnedRecord(pr, now)]
    ensures r.comments == w.comments + [Comment(pr.repositoryFullName, pr.number,
                                                RenderDays(cfg.warningMessage, pr.inactivityDays))]
    ensures r.closures == w.closures
  {
    var text := RenderDays(cfg.warningMessage, pr.inactivityDays);
    World(Put(w.table, WarnedRecord(pr, now)),
          w.comments + [Comment(pr.repositoryFullName, pr.number, text)],
          w.closures)
  }

  /** `markPrAsImmune`: an existing record that is not IMMUNE gets the
      reprieve comment and becomes IMMUNE; without a record a new IMMUNE
      record is written silently; an IMMUNE record is left alone. */
  function MarkImmune(w: World, cfg: Settings, pr: PullRequest, now: Timestamp): (r: World)
    ensures var found := Get(w.table, pr.repositoryFullName, pr.number);
      && r.closures == w.closures
      && (found.None? ==> r.comments == w.comments && r.table == w.table[KeyOf(pr) := ImmuneRecord(pr, now)])
      && (found.Some? && found.value.status != Immune ==>
            r.comments == w.comments + [Comment(pr.repositoryFullName, pr.number, cfg.reprieveMessage)] &&
            r.table == w.table[found.value.id := found.value.(status := Immune, lastCheckedAt := now)])
      && (found.Some? && found.value.status == Immune ==> r == w)
  {
    match Get(w.table, pr.repositoryFullName, pr.number)
    case Some(record) =>
      if record.status != Immune then
        World(Put(w.table, record.(status := Immune, lastCheckedAt := now)),
              w.comments + [Comment(pr.repositoryFullName, pr.number, cfg.reprieveMessage)],
              w.closures)
      else w
    case None =>
      w.(table := Put(w.table, ImmuneRecord(pr, now)))
  }

  /** `executePR`: the closing comment, templated with the pull request's
      current inactivity, then the close, then the record as EXECUTED. */
  function Execute(w: World, cfg: Settings, pr: PullRequest, record: PullRequestRecord, now: Timestamp): (r: World)
    ensures r.table == w.table[record.id := record.(status := Executed, executedAt := Some(now), lastCheckedAt := now)]
    ensures r.comments == w.comments + [Comment(pr.repositoryFullName, pr.number,
                                                RenderDays(cfg.closingMessage, pr.inactivityDays))]
    ensures r.closures == w.closures + [Closure(pr.repositoryFullName, pr.number)]
  {
    var text := RenderDays(cfg.closingMessage, pr.inactivityDays);
    World(Put(w.table, record.(status := Executed, executedAt := Some(now), lastCheckedAt := now)),
          w.comments + [Comment(pr.repositoryFullName, pr.number, text)],
          w.closures + [Closure(pr.repositoryFullName, pr.number)])
  }

  /** One iteration of `findAndWarnAbandonedPRs`. */
  function ScanCandidate(w: World, cfg: Settings, pr: PullRequest, now: Timestamp): (r: World)
    ensures r.closures == w.closures
    ensures w.comments <= r.comments && |r.comments| <= |w.comments| + 1
  {
    if HasImmunityLabel(cfg, pr) then MarkImmune(w, cfg, pr, now)
    else
      match Get(w.table, pr.repositoryFullName, pr.number)
      case None => Warn(w, cfg, pr, now)
      case Some(record) => if record.status == Active then Warn(w, cfg, pr, now) else w
  }

  /** `findAndWarnAbandonedPRs` over the candidates, in order. */
  function Scan(w: World, cfg: Settings, candidates: seq<PullRequest>, now: Timestamp): (r: World)
    ensures r.closures == w.closures
    ensures w.comments <= r.comments && |r.comments| <= |w.comments| + |candidates|
    decreases |candidates|
  {
    if candidates == [] then w
    else
      var n := |candidates| - 1;
      ScanCandidate(Scan(w, cfg, candidates[..n], now), cfg, candidates[n], now)
  }

  /** One iteration of `findAndExecuteWarned`: reactivation, then immunity,
      then the grace period, on a freshly fetched pull request. */
  function ReviewRecord(w: World, cfg: Settings, fetch: (string, nat) -> PullRequest,
                        record: PullRequestRecord, now: Timestamp): (r: World)
    ensures w.comments <= r.comments && |r.comments| <= |w.comments| + 1
    ensures r.closures == w.closures || r.closures == w.closures + [Closure(record.repositoryFullName, record.prNumber)]
  {
    var pr := Fetched(fetch, record.repositoryFullName, record.prNumber);
    if IsPRActive(pr, record) then
      w.(table := Put(w.table, record.(status := Active, lastCheckedAt := now)))
    else if HasImmunityLabel(cfg, pr) then MarkImmune(w, cfg, pr, now)
    else if GraceExpired(record, now, cfg.executionThresholdDays) then Execute(w, cfg, pr, record, now)
    else w
  }

  /** `findAndExecuteWarned` over the snapshot of WARNED records, in order. */
  function Review(w: World, cfg: Settings, fetch: (string, nat) -> PullRequest,
                  records: seq<PullRequestRecord>, now: Timestamp): (r: World)
    ensures w.comments <= r.comments && |r.comments| <= |w.comments| + |records|
    ensures w.closures <= r.closures && |r.closures| <= |w.closures| + |records|
    decreases |records|
  {
    if records == [] then w
    else
      var n := |records| - 1;
      ReviewRecord(Review(w, cfg, fetch, records[..n], now), cfg, fetch, records[n], now)
  }
}
