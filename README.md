# pr-grim-reaper, the reaper engine, in Dafny

pr-grim-reaper is a scheduled bot that handles a repository's inactive pull requests. Its
engine runs two operations:

- **The scan** (`findAndWarnAbandonedPRs`) walks the pull requests the hosting service lists
  as inactive.
  - A pull request with no tracking record, or with an ACTIVE one, gets a warning comment and
    a WARNED record.
  - A pull request carrying an immunity label is made IMMUNE instead.
  - Every other pull request is left alone.
- **The review** (`findAndExecuteWarned`) takes a snapshot of the WARNED records and rechecks
  each against a fresh copy of its pull request.
  - A pull request updated after its warning becomes ACTIVE again.
  - A pull request that has gained an immunity label becomes IMMUNE.
  - A pull request whose grace period has run out is closed with a closing comment, and its
    record becomes EXECUTED.

Tracking records live in a key-value table under the key `repository#number`. The engine's
settings come from environment variables, each with a default.

The model is organised as follows:

- `wrappers.dfy`: `Option` and `Result`.
- `strings.dfy`: the JavaScript string built-ins the core relies on, each with its contract.
  They are `trim`, `split(',')`, the first-occurrence `replace`, `toString` and `parseInt`.
- `entities.dfy`: the pull request, the four statuses, the tracking record and its key.
- `config.dfy`: every getter of the configuration service, as a function of an environment
  map.
- `record_store.dfy`: the repository as a class over a `map` field, with pure `Put` and `Get`
  beside it.
- `vcs_client.dfy`: the hosting-service client.
  - `getPullRequest` is an oracle `fetch`, a function from a key to the service's current data.
  - `postComment` and `closePR` append to logs of comments and closures.
- `reaper_spec.dfy`: each transition of the engine as a function on a `World`. A `World` is
  the record table plus the two logs. The scan and the review are folds over their inputs.
- `reaper_service.dfy`: the `ReaperService` class. Its methods perform the calls in the source's
  order and are proved to produce exactly the folds' `World`.
- `reaper_properties.dfy`: what the engine guarantees, proved about the folds.
  - the decision table of each transition
  - the invariants both operations keep (every record sits under its own key, and every
    WARNED record has a warning time)
  - which records each operation may touch
  - how many comments and closures each operation sends
  - that a second scan changes nothing
  - an end-to-end warn-then-close scenario

The entities follow src/domain/entities/pull-request.ts.

- `PullRequest` has the ten fields of the interface at lines 5-16, with timestamps as
  milliseconds.
- `PullRequestStatus` is the four-value enum at lines 21-26. `StatusName` gives each value's
  stored string.
- `PullRequestRecord` is the record at lines 32-40. The optional `warningPostedAt` and
  `executedAt` are `Option<Timestamp>`, and `None` stands for an absent field.

Timestamps are integer milliseconds. "Days since" is `(now - t) / 86_400_000`, which is floor
division for a positive divisor, as `Math.floor` over the source's day difference is.

Each operation runs at a single instant `now`, which is a parameter.

The configuration getters are pure functions of an environment that does not change during a
run. The engine therefore reads them through one `Settings` value. The service's constructor
takes the environment and stores `SettingsOf(env)`, so every setting the engine uses is one a
real environment produces.

`parseInt` returns `None` for JavaScript's `NaN`. A `NaN` threshold compares false, so it never
lets a grace period expire.

A record without `warningPostedAt` is never executed and never reactivated. The source's
`warningPostedAt!` gives an invalid date in that case, hence `NaN` days, and `isPRActive` tests
for the field first.

EXECUTED is not terminal in the code. An immune candidate whose record is EXECUTED gets a
reprieve comment and its record becomes IMMUNE (reaper-service.ts:168-183; see
`ScanReprieves`). `ReviewKeepsUnwarned` and `ScanKeepsExecuted` state where EXECUTED is kept.

## Model

| member | source | states |
|---|---|---|
| Entities.StatusNameRoundTrip | src/domain/entities/pull-request.ts:21-26 | each status is stored as its own name; reading a name back gives that status; only the four names ACTIVE, WARNED, EXECUTED and IMMUNE read back as a status |
| Entities.KeyInjective | src/infrastructure/persistence/dynamo-repository.ts:58 | two pull requests with the same key `repo#number` are the same pull request, even if a repository name contains `#` |
| Entities.RecordKey | src/infrastructure/persistence/dynamo-repository.ts:58 | the key of a pull request is its repository name, then `#`, then decimal digits whose value is the number, as the `${repo}#${number}` id is built here and at reaper-service.ts:119 and :188 |
| Strings.Trim | src/config/config.ts:22 | `trim` keeps one slice of the input that neither starts nor ends with whitespace, with only whitespace before and after it; it is empty exactly when the input is all whitespace |
| Strings.TrimStart | src/config/config.ts:22 | the result is a suffix of the input, everything dropped is whitespace, and the result does not start with whitespace |
| Strings.TrimEnd | src/config/config.ts:22 | the result is a prefix of the input, everything dropped is whitespace, and the result does not end with whitespace |
| Strings.TrimIdempotent | src/config/config.ts:35 | a trimmed string has no whitespace at either end and trims to itself |
| Strings.Split | src/config/config.ts:22 | `split` gives at least one piece, and no piece contains the separator |
| Strings.JoinSplit | src/config/config.ts:22 | joining the pieces of a split with the separator gives back the original string, empty pieces included |
| Strings.SplitJoin | src/config/config.ts:35 | splitting a join of separator-free pieces gives back those pieces |
| Strings.IndexOf | src/domain/services/reaper-service.ts:107-108 | the search finds a position exactly when the pattern occurs, and the position found is the first occurrence |
| Strings.ReplaceFirst | src/domain/services/reaper-service.ts:107-108 | `replace` with a string pattern changes nothing when the pattern is absent, and otherwise splices the replacement over the first occurrence only |
| Strings.ReplaceFirstKeepsLater | src/domain/services/reaper-service.ts:107-108 | `replace` with a string pattern puts the replacement where the first occurrence was and keeps every later occurrence of the pattern, moved by the difference in length |
| Strings.NatToDecimal | src/domain/services/reaper-service.ts:108 | `toString` of a natural number is at least one decimal digit, with no leading zero unless the number is 0 |
| Strings.IntToDecimal | src/domain/services/reaper-service.ts:108 | `toString` of an integer starts with a minus sign exactly when it is negative, and the rest is decimal digits, at least one |
| Strings.DecimalRoundTrip | src/domain/services/reaper-service.ts:108 | the digits `toString` writes for a natural number read back as that number |
| Strings.ParseInt | src/config/config.ts:26 | `parseInt(s, 10)` is `NaN` exactly when no digit follows the leading whitespace and the optional sign, and a negative result comes only after a minus sign |
| Strings.ParseIntRoundTrip | src/config/config.ts:26 | `parseInt(i.toString(), 10)` is `i` for every integer, negative ones included |
| Strings.ParseIntNoDigits | src/config/config.ts:30 | `parseInt` of any string without a decimal digit is `NaN` |
| Strings.ParseIntDigits | src/config/config.ts:26 | `parseInt` of a non-empty string of decimal digits is the number the digits write, leading zeros included |
| Config.Repositories | src/config/config.ts:20-23 | an absent or empty variable gives no repositories; otherwise the result is the trimmed comma-separated pieces, empty pieces kept |
| Config.TrimmedPieces | src/config/config.ts:35 | one entry per comma-separated piece, each trimmed |
| Config.WarningThresholdDays | src/config/config.ts:25-27 | the warning threshold is 14 when its variable is absent or empty, and `parseInt` of the variable otherwise |
| Config.ExecutionThresholdDays | src/config/config.ts:29-31 | the execution threshold is 7 when its variable is absent or empty, and `parseInt` of the variable otherwise |
| Config.WarningThresholdDefault | src/config/config.ts:25-27 | the warning threshold is 14 when its variable is absent or empty; a variable holding `n.toString()` gives `n`, and any variable of decimal digits gives the number they write, leading zeros included (`"0014"` gives 14) |
| Config.ExecutionThresholdDefault | src/config/config.ts:29-31 | the execution threshold is 7 when its variable is absent or empty; a variable holding `n.toString()` gives `n`, and any variable of decimal digits gives the number they write, leading zeros included (`"07"` gives 7) |
| Config.ImmunityLabels | src/config/config.ts:33-36 | the immunity labels are never an empty list, and a set variable gives its trimmed comma-separated pieces |
| Config.ImmunityLabelsDefault | src/config/config.ts:34 | with the variable absent or empty the labels are exactly `do-not-close` and `work-in-progress` |
| Config.WarningMessage | src/config/config.ts:38-41 | the warning template is never empty, and a set variable wins over the default |
| Config.ClosingMessage | src/config/config.ts:43-46 | the closing template is never empty, and a set variable wins over the default |
| Config.ReprieveMessage | src/config/config.ts:48-51 | the reprieve message is never empty, and a set variable wins over the default |
| Config.MessageDefaults | src/config/config.ts:38-51 | the default warning and closing templates contain `{{days}}`, first right after their lead text; the default reprieve message does not contain it |
| Config.GitHubToken | src/config/config.ts:53-59 | the token getter fails with "GITHUB_TOKEN is required" exactly when the variable is absent or empty, and otherwise returns the variable unchanged |
| Config.DynamoTableName | src/config/config.ts:61-63 | the table name is `pr-grim-reaper-records` unless the variable is set |
| RecordStore.Put | src/infrastructure/persistence/dynamo-repository.ts:24-27 | a write puts the record at its `id` and leaves every other key as it was |
| RecordStore.Get | src/infrastructure/persistence/dynamo-repository.ts:53-70 | a lookup is absent exactly when `repo#number` is not a key, and otherwise returns the stored record |
| RecordStore.PutThenGet | src/infrastructure/persistence/dynamo-repository.ts:58-65 | after a write of a record stored under its own key, looking up its pull request returns that record |
| RecordStore.PutOtherUnchanged | src/infrastructure/persistence/dynamo-repository.ts:24-27 | a write of one pull request's record changes no other pull request's lookup |
| RecordStore.GetEmpty | src/infrastructure/persistence/dynamo-repository.ts:65 | a lookup in a table never written is absent |
| RecordStore.PullRequestRepository.Create | src/infrastructure/persistence/dynamo-repository.ts:22-32 | `create` is an unconditional overwrite at `record.id` |
| RecordStore.PullRequestRepository.Update | src/infrastructure/persistence/dynamo-repository.ts:37-47 | `update` has exactly the effect of `create` |
| RecordStore.PullRequestRepository.FindByRepoAndPrNumber | src/infrastructure/persistence/dynamo-repository.ts:53-70 | the lookup returns the entry at `repo#number`, or absent when there is none |
| RecordStore.PullRequestRepository.FindByStatus | src/infrastructure/persistence/dynamo-repository.ts:76-94 | the query returns, across all result pages, every record with the status, each once and as stored, and no other record |
| Vcs.Fetched | src/infrastructure/github/github-client.ts:91-126 | the fetched pull request carries the repository and number asked for, and the service's current update time, inactivity and labels |
| Vcs.GitHubClient.GetPullRequest | src/infrastructure/github/github-client.ts:91-126 | a fresh, uncached fetch of the pull request |
| Vcs.GitHubClient.PostComment | src/infrastructure/github/github-client.ts:131-149 | posting appends exactly one comment and closes nothing |
| Vcs.GitHubClient.ClosePR | src/infrastructure/github/github-client.ts:155-172 | closing appends exactly one closure and posts nothing |
| ReaperSpec.SomeLabelIn | src/domain/services/reaper-service.ts:97-100 | `some`/`includes`: true exactly when some label is in the list |
| ReaperSpec.HasImmunityLabel | src/domain/services/reaper-service.ts:97-100 | a pull request is immune exactly when one of its labels equals one of the immunity labels, case and all |
| ReaperSpec.IsPRActive | src/domain/services/reaper-service.ts:203-213 | a record without a warning time is never active; otherwise the pull request is active exactly when it was updated strictly after the warning |
| ReaperSpec.GraceExpired | src/domain/services/reaper-service.ts:81-87 | the grace period has run out exactly when there is a warning time, the threshold is a number `n`, and at least `n` times one day has passed since the warning; a `NaN` threshold or a missing warning time never expires |
| ReaperSpec.DaysSince | src/domain/services/reaper-service.ts:82-85 | the whole days since a time, rounded down: `d` days of milliseconds fit in the elapsed time and `d + 1` do not |
| ReaperSpec.RenderDays | src/domain/services/reaper-service.ts:107-108 | a template without `{{days}}` is used verbatim; otherwise the result is the text before the first `{{days}}`, the decimal day count, and the text after that placeholder |
| ReaperSpec.Warn | src/domain/services/reaper-service.ts:106-128 | warning appends one comment with the templated warning, writes the WARNED record at the pull request's key and nowhere else, and closes nothing |
| ReaperSpec.WarnedRecord | src/domain/services/reaper-service.ts:118-125 | the record a warning creates sits under the pull request's own key, names that pull request, is WARNED, is warned and checked at `now`, and has no execution time |
| ReaperSpec.MarkImmune | src/domain/services/reaper-service.ts:162-197 | without a record: a new IMMUNE record at the pull request's key, no comment; with a record that is not IMMUNE: one reprieve comment and that record as IMMUNE at its own key; with an IMMUNE record: nothing; never a close |
| ReaperSpec.ImmuneRecord | src/domain/services/reaper-service.ts:187-193 | the record an untracked immune pull request gets sits under its own key, names that pull request, is IMMUNE, is checked at `now`, and has neither a warning nor an execution time |
| ReaperSpec.Execute | src/domain/services/reaper-service.ts:134-157 | execution appends one templated closing comment and one close of the pull request, and writes the record as EXECUTED at its own key and nowhere else |
| ReaperSpec.ScanCandidate | src/domain/services/reaper-service.ts:30-45 | one scan step closes nothing and appends at most one comment |
| ReaperSpec.Scan | src/domain/services/reaper-service.ts:30-45 | a whole scan closes nothing and appends at most one comment per candidate |
| ReaperSpec.ReviewRecord | src/domain/services/reaper-service.ts:58-89 | one review step appends at most one comment, and at most one close, which is of the reviewed record's pull request |
| ReaperSpec.Review | src/domain/services/reaper-service.ts:58-89 | a whole review appends at most one comment and one close per reviewed record |
| ReaperProperties.RenderDaysReplacesFirst | src/domain/services/reaper-service.ts:107-108 | templating puts the decimal day count where the first `{{days}}` was, and every later `{{days}}` survives in the rendered text |
| ReaperProperties.DefaultWarningRendered | src/domain/services/reaper-service.ts:107-108 | the rendered default warning reads the lead text, the day count, then the rest of the default text |
| ReaperProperties.DefaultClosingRendered | src/domain/services/reaper-service.ts:135-136 | the rendered default closing message reads the lead text, the day count, then " days of inactivity." (the closing tail) |
| ReaperProperties.SettingsDefaults | src/config/config.ts:33-51 | an absent or empty variable gives its getter's default in the engine's settings |
| ReaperProperties.ScanWarns | src/domain/services/reaper-service.ts:106-128 | a non-immune candidate with no record or an ACTIVE one gets exactly one warning comment, with its inactivity; it gets a fresh WARNED record with `warningPostedAt = lastCheckedAt = now` and no `executedAt`; nothing is closed |
| ReaperProperties.ScanSkipsTracked | src/domain/services/reaper-service.ts:43 | a non-immune candidate whose record is WARNED, EXECUTED or IMMUNE causes nothing, so it is never warned again |
| ReaperProperties.ScanReprieves | src/domain/services/reaper-service.ts:168-183 | an immune candidate whose record is not IMMUNE (EXECUTED included) gets one reprieve comment; the record becomes IMMUNE with a fresh `lastCheckedAt` and every other field kept |
| ReaperProperties.ScanRecordsImmune | src/domain/services/reaper-service.ts:185-196 | an immune candidate without a record gets a new IMMUNE record without a warning time, and no comment is posted |
| ReaperProperties.ScanImmuneAgain | src/domain/services/reaper-service.ts:162-197 | an immune candidate whose record is already IMMUNE causes nothing |
| ReaperProperties.ReviewReactivates | src/domain/services/reaper-service.ts:66-73 | a pull request updated strictly after its warning gets its record rewritten as ACTIVE with `lastCheckedAt = now` and every other field kept, the warning time included; nothing is posted or closed |
| ReaperProperties.ReviewWithoutWarningTime | src/domain/services/reaper-service.ts:203-213 | a record without a warning time is never reactivated and never executed; it can only be made immune |
| ReaperProperties.ReviewImmunityFirst | src/domain/services/reaper-service.ts:75-79 | immunity is checked before the grace period |
| ReaperProperties.ReviewExecutes | src/domain/services/reaper-service.ts:134-157 | once the grace period has run out, exactly one closing comment is posted, with the pull request's current inactivity, then one close; the record becomes EXECUTED with `executedAt = lastCheckedAt = now` |
| ReaperProperties.ReviewWaits | src/domain/services/reaper-service.ts:87-89 | within the grace period nothing is written, posted or closed |
| ReaperProperties.MarkImmuneFrame | src/domain/services/reaper-service.ts:162-197 | the immunity transition writes only at the pull request's key, keeps the table's invariants, posts at most one comment and closes nothing |
| ReaperProperties.ScanCandidateFrame | src/domain/services/reaper-service.ts:30-45 | one scan step writes only at the candidate's key, keeps the invariants, posts at most one comment and closes nothing |
| ReaperProperties.ReviewRecordFrame | src/domain/services/reaper-service.ts:58-89 | one review step writes only at the record's key and keeps the invariants; it posts at most one comment, and closes at most that record's pull request |
| ReaperProperties.PutConsistent | src/infrastructure/persistence/dynamo-repository.ts:24-27 | writing a record stored under its own key, with a warning time if WARNED, keeps the table's invariants |
| ReaperProperties.ScanPreservesConsistent | src/domain/services/reaper-service.ts:116-125 | a scan keeps every record under its own key, and every WARNED record it leaves has a warning time |
| ReaperProperties.ScanLogs | src/domain/services/reaper-service.ts:30-45 | a scan closes nothing and posts at most one comment per candidate, after the existing comments |
| ReaperProperties.ScanFrame | src/domain/services/reaper-service.ts:30-45 | a scan touches no record other than its candidates' records |
| ReaperProperties.ScanKeepsExecuted | src/domain/services/reaper-service.ts:32-45 | an EXECUTED record changes in a scan only if an immune candidate for the same pull request turns up |
| ReaperProperties.ScanKeepsStatus | src/domain/services/reaper-service.ts:32-45 | a record that is not ACTIVE is kept as it is by a scan with no immune candidate for it |
| ReaperProperties.ScanSettles | src/domain/services/reaper-service.ts:30-45 | after a scan every candidate has a record, none of them ACTIVE, and immune candidates' records are IMMUNE |
| ReaperProperties.ScanIdempotent | src/domain/services/reaper-service.ts:22-46 | running the scan again with the same candidates, at any time and with no outside change, adds no comments, closes nothing and changes no records |
| ReaperProperties.ReviewLogs | src/domain/services/reaper-service.ts:58-89 | a review keeps the table's invariants, and posts and closes at most once per reviewed record, after the existing logs |
| ReaperProperties.ReviewClosesOnlyReviewed | src/domain/services/reaper-service.ts:58-89 | a review closes only pull requests of the records it reviews |
| ReaperProperties.ReviewFrame | src/domain/services/reaper-service.ts:58-89 | a review touches no record other than those it reviews |
| ReaperProperties.ReviewKeepsUnwarned | src/domain/services/reaper-service.ts:53-58 | reviewing the WARNED snapshot of a consistent table leaves every ACTIVE, EXECUTED and IMMUNE record exactly as it was |
| ReaperProperties.SingletonListed | src/infrastructure/persistence/dynamo-repository.ts:76-89 | a table holding one record lists exactly that record under its status |
| ReaperProperties.ScenarioScan | src/domain/services/reaper-service.ts:22-46 | org/repo #42, 20 days inactive, no labels, no record, default warning: one comment with "20" after the lead text, one WARNED record stamped `now`, no close |
| ReaperProperties.ScenarioReview | src/domain/services/reaper-service.ts:53-90 | the WARNED snapshot of the one-record table is exactly that record; seven days later with no activity and defaults: one closing comment with the current inactivity, one close of org/repo #42, and the record EXECUTED at that time |
| Reaper.ReaperService.constructor | src/domain/services/reaper-service.ts:12-16 | the service keeps the client and the store it is given, and its settings are exactly the getters' values for the environment: `config == SettingsOf(env)` |
| Reaper.ReaperService.FindAndWarnAbandonedPRs | src/domain/services/reaper-service.ts:22-46 | the scan leaves the store and the comment and closure logs exactly as the scan fold says, and keeps the store's keying invariant |
| Reaper.ReaperService.FindAndExecuteWarned | src/domain/services/reaper-service.ts:53-90 | the review visits exactly the records that were WARNED when it started, and leaves the store and logs exactly as the review fold over that snapshot says |
| Reaper.ReaperService.ReviewWarnedRecord | src/domain/services/reaper-service.ts:58-89 | one loop iteration of the review is the review step on a fresh fetch |
| Reaper.ReaperService.WarnPR | src/domain/services/reaper-service.ts:106-128 | posts the templated warning, then creates the WARNED record |
| Reaper.ReaperService.ExecutePR | src/domain/services/reaper-service.ts:134-157 | posts the templated closing comment, closes, then updates the record to EXECUTED |
| Reaper.ReaperService.MarkPrAsImmune | src/domain/services/reaper-service.ts:162-197 | reprieves a tracked pull request that is not IMMUNE, or silently records an untracked one as IMMUNE; an IMMUNE record is left alone |

## Left out

- Listing inactive pull requests (`findInactivePRs`): its repository listing, its paging (first page of 100) and its per-repository error handling. The scan takes the listed pull requests as a parameter. The model does not rely on any property of the list, such as `inactivityDays` being at least the warning threshold.
- Octokit itself, and the mapping from its response to a pull request, are not modelled: the fetch is an oracle.
- Vcs.GitHubClient.fetch: the oracle is fixed when the client is built and ignores the comment log. The model therefore does not capture that a posted comment moves the pull request's `updatedAt` on the hosting service, nor that the warning's timestamp being taken after the comment keeps that change from reactivating the pull request.
- Vcs.GitHubClient.fetch: the oracle may return an empty label name, which the source's client drops (`.filter(Boolean)` in src/infrastructure/github/github-client.ts:118-120). With an immunity list that has an empty piece, such as `a,,b`, the model can then find an immunity label the source never matches.
- Vcs.Fetched: the fetched pull request is taken to carry the number that was asked for, whereas the source copies `pr.number` from the service's answer.
- Date handling: luxon, ISO-8601 strings and the floating-point day difference are replaced by integer milliseconds and floor division. Calendar days of other than 24 hours (daylight-saving changes) are therefore not modelled.
- The clock: the source reads `DateTime.now()` at each write, while the model uses one `now` per operation.
- `parseInt` precision: numbers too large for a double lose precision in the source and are exact here. Leading-zero, sign and whitespace handling and the stop at the first non-digit are modelled.
- Strings are sequences of Unicode scalar values, not UTF-16 code units. Whitespace for `trim` is the ECMAScript set.
- DynamoDB: the SDK wiring, the region, and the eventual consistency of the `StatusIndex` secondary index are left out. The store is a strongly consistent map, and the review iterates one snapshot of it.
- Concurrency: the two scheduled operations can race in the source and write last-wins. Each is modelled as running alone.
- RecordStore.PullRequestRepository.FindByStatus: the source reads one query page only, while the model returns all matching records. DynamoDB stops a page at 1 MB, and the source never follows `LastEvaluatedKey`.
- Failures: a thrown error in the client or the store aborts the source's operation partway; the model has no failures.
- The ordering of calls: the comment is sent before the store write, and the close between the comment and the write. This ordering is visible only in the method bodies, because the `World` keeps comments, closures and records in separate logs. It matters when a call fails. It also keeps the engine's own warning from counting as activity: `warnPR` reads the clock for `warningPostedAt` only after posting the comment (reaper-service.ts:110-125), so the `updatedAt` the comment causes is no later than the warning time that `isPRActive` compares against (reaper-service.ts:203-209).
- `getWarningThresholdDays`, `getRepositories`, `getGitHubToken` and `getDynamoTableName` are modelled as functions, but nothing in the engine's model reads them. The engine reads the first two only to pass them to the listing (reaper-service.ts:23-26), which is outside the model. The client and the wiring read the other two.
- Logging (`console.log`), the Lambda handlers and the infrastructure code are outside the core.
