/** What the reaper engine guarantees, proved about the functions of
    `ReaperSpec`: the decision table of each operation, the invariants both
    operations keep, which records each may touch, how many comments and
    closures they send, and that a repeated scan changes nothing. */
module ReaperProperties {
  import opened Wrappers
  import opened Strings
  import opened Entities
  import opened Config
  import opened RecordStore
  import opened Vcs
  import opened ReaperSpec

  // ---------------------------------------------------------------------
  // Invariants of the record table
  // ---------------------------------------------------------------------

  /** Every record names the pull request it is stored for. */
  predicate AllKeysMatch(t: Table) {
    forall k :: k in t ==> KeyMatches(t[k])
  }

  /** Every WARNED record carries the time of its warning. */
  predicate WarnedStamped(t: Table) {
    forall k :: k in t && t[k].status == Warned ==> t[k].warningPostedAt.Some?
  }

  /** The invariants every table the engine writes keeps. */
  predicate Consistent(t: Table) {
    KeyedById(t) && AllKeysMatch(t) && WarnedStamped(t)
  }

  /** `t` and `t'` hold the same entry, or none, at `k`. */
  predicate Agree(t: Table, t': Table, k: string) {
    (k in t <==> k in t') && (k in t ==> t[k] == t'[k])
  }

  /** Writing a record that names its own pull request, and that carries a
      warning time if it is WARNED, keeps the invariants. */
  lemma PutConsistent(t: Table, r: PullRequestRecord)
    requires Consistent(t) && KeyMatches(r)
    requires r.status == Warned ==> r.warningPostedAt.Some?
    ensures Consistent(Put(t, r))
  {
    var t' := Put(t, r);
    forall k | k in t' ensures KeyMatches(t'[k]) && (t'[k].status == Warned ==> t'[k].warningPostedAt.Some?) {
      if k != r.id {
        assert t'[k] == t[k];
      }
    }
  }

  // ---------------------------------------------------------------------
  // Templating
  // ---------------------------------------------------------------------

  /** Only the first `{{days}}` is replaced: the day count stands where it
      was, and every later placeholder survives, moved by the difference in
      length between the placeholder and the digits. */
  lemma RenderDaysReplacesFirst(template: string, days: int)
    ensures IndexOf(template, "{{days}}").Some? ==>
              && OccursAt(RenderDays(template, days), IntToDecimal(days), IndexOf(template, "{{days}}").value)
              && LaterOccurrencesKept(template, "{{days}}", IndexOf(template, "{{days}}").value,
                                      RenderDays(template, days), |IntToDecimal(days)|)
  {
    ReplaceFirstKeepsLater(template, "{{days}}", IntToDecimal(days));
  }

  /** The default warning message, rendered, reads the lead text, the day
      count, then the rest of the default text. */
  lemma DefaultWarningRendered(days: int)
    ensures RenderDays(DefaultWarningMessage, days) ==
              WarningLead + IntToDecimal(days) +
              WarningTail
  {
    MessageDefaults(map[]);
    var s := DefaultWarningMessage;
    assert s[..|WarningLead|] == WarningLead;
    assert s[|WarningLead| + 8..] == WarningTail;
  }

  /** The default closing message, rendered, reads the lead text, the day
      count, then the closing tail. */
  lemma DefaultClosingRendered(days: int)
    ensures RenderDays(DefaultClosingMessage, days) == ClosingLead + IntToDecimal(days) + ClosingTail
  {
    MessageDefaults(map[]);
    var s := DefaultClosingMessage;
    assert s[..|ClosingLead|] == ClosingLead;
    assert s[|ClosingLead| + 8..] == ClosingTail;
  }

  /** The settings read from an environment that leaves a variable absent or
      empty hold that getter's default. */
  lemma SettingsDefaults(env: Env)
    ensures Var(env, IMMUNITY_LABELS) == "" ==>
              SettingsOf(env).immunityLabels == ["do-not-close", "work-in-progress"]
    ensures Var(env, WARNING_MESSAGE) == "" ==> SettingsOf(env).warningMessage == DefaultWarningMessage
    ensures Var(env, CLOSING_MESSAGE) == "" ==> SettingsOf(env).closingMessage == DefaultClosingMessage
    ensures Var(env, REPRIEVE_MESSAGE) == "" ==> SettingsOf(env).reprieveMessage == DefaultReprieveMessage
    ensures Var(env, EXECUTION_THRESHOLD_DAYS) == "" ==> SettingsOf(env).executionThresholdDays == Some(7)
  {
    if Var(env, IMMUNITY_LABELS) == "" {
      ImmunityLabelsDefault(env);
    }
    ExecutionThresholdDefault(env, 7);
  }

  // ---------------------------------------------------------------------
  // The scan's decision table
  // ---------------------------------------------------------------------

  /** A non-immune candidate with no record or an ACTIVE one gets exactly one
      warning comment and a fresh WARNED record stamped `now`; nothing is
      closed. */
  lemma ScanWarns(w: World, cfg: Settings, pr: PullRequest, now: Timestamp)
    requires !HasImmunityLabel(cfg, pr)
    requires var r := Get(w.table, pr.repositoryFullName, pr.number); r.None? || r.value.status == Active
    ensures var w' := ScanCandidate(w, cfg, pr, now); var k := KeyOf(pr);
      && w'.comments == w.comments + [Comment(pr.repositoryFullName, pr.number,
                                              RenderDays(cfg.warningMessage, pr.inactivityDays))]
      && w'.closures == w.closures
      && w'.table == w.table[k := PullRequestRecord(k, pr.repositoryFullName, pr.number,
                                                    Warned, Some(now), None, now)]
  {
  }

  /** A non-immune candidate whose record is WARNED, EXECUTED or IMMUNE causes
      nothing at all: in particular it is never warned again. */
  lemma ScanSkipsTracked(w: World, cfg: Settings, pr: PullRequest, now: Timestamp)
    requires !HasImmunityLabel(cfg, pr)
    requires var r := Get(w.table, pr.repositoryFullName, pr.number); r.Some? && r.value.status != Active
    ensures ScanCandidate(w, cfg, pr, now) == w
  {
  }

  /** An immune candidate whose record is not IMMUNE (an EXECUTED one
      included) gets one reprieve comment, and its record becomes IMMUNE with
      every other field kept; nothing is closed. */
  lemma ScanReprieves(w: World, cfg: Settings, pr: PullRequest, now: Timestamp)
    requires HasImmunityLabel(cfg, pr)
    requires var r := Get(w.table, pr.repositoryFullName, pr.number); r.Some? && r.value.status != Immune
    ensures var w' := ScanCandidate(w, cfg, pr, now);
            var r := Get(w.table, pr.repositoryFullName, pr.number).value;
      && w'.comments == w.comments + [Comment(pr.repositoryFullName, pr.number, cfg.reprieveMessage)]
      && w'.closures == w.closures
      && w'.table == w.table[r.id := PullRequestRecord(r.id, r.repositoryFullName, r.prNumber,
                                                       Immune, r.warningPostedAt, r.executedAt, now)]
  {
  }

  /** An immune candidate without a record gets a new IMMUNE record without a
      warning time; nothing is posted or closed. */
  lemma ScanRecordsImmune(w: World, cfg: Settings, pr: PullRequest, now: Timestamp)
    requires HasImmunityLabel(cfg, pr)
    requires Get(w.table, pr.repositoryFullName, pr.number).None?
    ensures var w' := ScanCandidate(w, cfg, pr, now); var k := KeyOf(pr);
      && w'.comments == w.comments && w'.closures == w.closures
      && w'.table == w.table[k := PullRequestRecord(k, pr.repositoryFullName, pr.number,
                                                    Immune, None, None, now)]
  {
  }

  /** An immune candidate whose record is already IMMUNE causes nothing. */
  lemma ScanImmuneAgain(w: World, cfg: Settings, pr: PullRequest, now: Timestamp)
    requires HasImmunityLabel(cfg, pr)
    requires var r := Get(w.table, pr.repositoryFullName, pr.number); r.Some? && r.value.status == Immune
    ensures ScanCandidate(w, cfg, pr, now) == w
  {
  }

  // ---------------------------------------------------------------------
  // The review's decision table
  // ---------------------------------------------------------------------

  /** A record whose pull request was updated strictly after the warning is
      rewritten as ACTIVE with `lastCheckedAt = now` and every other field
      kept, the warning time included; nothing is posted or closed. */
  lemma ReviewReactivates(w: World, cfg: Settings, fetch: (string, nat) -> PullRequest,
                          record: PullRequestRecord, now: Timestamp)
    requires record.warningPostedAt.Some?
    requires fetch(record.repositoryFullName, record.prNumber).updatedAt > record.warningPostedAt.value
    ensures var w' := ReviewRecord(w, cfg, fetch, record, now);
      && w'.comments == w.comments && w'.closures == w.closures
      && w'.table == w.table[record.id := PullRequestRecord(record.id, record.repositoryFullName,
                               record.prNumber, Active, record.warningPostedAt, record.executedAt, now)]
  {
  }

  /** A record without a warning time is never reactivated and never
      executed: it can only be made immune. */
  lemma ReviewWithoutWarningTime(w: World, cfg: Settings, fetch: (string, nat) -> PullRequest,
                                 record: PullRequestRecord, now: Timestamp)
    requires record.warningPostedAt.None?
    ensures var pr := Fetched(fetch, record.repositoryFullName, record.prNumber);
      ReviewRecord(w, cfg, fetch, record, now) == if HasImmunityLabel(cfg, pr) then MarkImmune(w, cfg, pr, now) else w
  {
  }

  /** Immunity is checked before the grace period: an immune pull request
      that was not reactivated is made immune however long ago it was
      warned. */
  lemma ReviewImmunityFirst(w: World, cfg: Settings, fetch: (string, nat) -> PullRequest,
                            record: PullRequestRecord, now: Timestamp)
    requires var pr := Fetched(fetch, record.repositoryFullName, record.prNumber);
      !IsPRActive(pr, record) && HasImmunityLabel(cfg, pr)
    ensures ReviewRecord(w, cfg, fetch, record, now) ==
              MarkImmune(w, cfg, Fetched(fetch, record.repositoryFullName, record.prNumber), now)
  {
  }

  /** Once the grace period has run out, a pull request that is neither
      reactivated nor immune gets exactly one closing comment (templated with
      its current inactivity), one close, and its record becomes EXECUTED
      with `executedAt = lastCheckedAt = now`. */
  lemma ReviewExecutes(w: World, cfg: Settings, fetch: (string, nat) -> PullRequest,
                       record: PullRequestRecord, now: Timestamp)
    requires var pr := Fetched(fetch, record.repositoryFullName, record.prNumber);
      !IsPRActive(pr, record) && !HasImmunityLabel(cfg, pr)
    requires record.warningPostedAt.Some? && cfg.executionThresholdDays.Some?
    requires (now - record.warningPostedAt.value) / DayMillis >= cfg.executionThresholdDays.value
    ensures var w' := ReviewRecord(w, cfg, fetch, record, now);
            var days := fetch(record.repositoryFullName, record.prNumber).inactivityDays;
      && w'.comments == w.comments + [Comment(record.repositoryFullName, record.prNumber,
                                              RenderDays(cfg.closingMessage, days))]
      && w'.closures == w.closures + [Closure(record.repositoryFullName, record.prNumber)]
      && w'.table == w.table[record.id := PullRequestRecord(record.id, record.repositoryFullName,
                               record.prNumber, Executed, record.warningPostedAt, Some(now), now)]
  {
  }

  /** Within the grace period a pull request that is neither reactivated nor
      immune is left alone: nothing is written, posted or closed. */
  lemma ReviewWaits(w: World, cfg: Settings, fetch: (string, nat) -> PullRequest,
                    record: PullRequestRecord, now: Timestamp)
    requires var pr := Fetched(fetch, record.repositoryFullName, record.prNumber);
      !IsPRActive(pr, record) && !HasImmunityLabel(cfg, pr)
    requires !GraceExpired(record, now, cfg.executionThresholdDays)
    ensures ReviewRecord(w, cfg, fetch, record, now) == w
  {
  }

  // ---------------------------------------------------------------------
  // Single steps: what they write and where
  // ---------------------------------------------------------------------

  /** An immunity step writes only at the pull request's key and keeps the
      table's invariants. */
  lemma MarkImmuneFrame(w: World, cfg: Settings, pr: PullRequest, now: Timestamp)
    requires KeyedById(w.table)
    ensures var w' := MarkImmune(w, cfg, pr, now);
      && KeyedById(w'.table)
      && (forall k :: k != KeyOf(pr) ==> Agree(w.table, w'.table, k))
      && (Consistent(w.table) ==> Consistent(w'.table))
      && w'.closures == w.closures
      && w.comments <= w'.comments && |w'.comments| <= |w.comments| + 1
  {
    var r := Get(w.table, pr.repositoryFullName, pr.number);
    var t' := MarkImmune(w, cfg, pr, now).table;
    if r.Some? && r.value.status != Immune {
      var updated := r.value.(status := Immune, lastCheckedAt := now);
      assert r.value.id == KeyOf(pr);
      assert t' == Put(w.table, updated);
      PutFrame(w.table, updated);
      if Consistent(w.table) {
        PutConsistent(w.table, updated);
      }
    } else if r.None? {
      assert t' == Put(w.table, ImmuneRecord(pr, now));
      PutFrame(w.table, ImmuneRecord(pr, now));
      if Consistent(w.table) {
        PutConsistent(w.table, ImmuneRecord(pr, now));
      }
    }
  }

  /** A write keeps every record at its own key and changes no other key. */
  lemma PutFrame(t: Table, r: PullRequestRecord)
    requires KeyedById(t)
    ensures KeyedById(Put(t, r))
    ensures forall k :: k != r.id ==> Agree(t, Put(t, r), k)
  {
  }

  /** A scan step writes only at the candidate's key and keeps the table's
      invariants; it posts at most one comment and closes nothing. */
  lemma ScanCandidateFrame(w: World, cfg: Settings, pr: PullRequest, now: Timestamp)
    requires KeyedById(w.table)
    ensures var w' := ScanCandidate(w, cfg, pr, now);
      && KeyedById(w'.table)
      && (forall k :: k != KeyOf(pr) ==> Agree(w.table, w'.table, k))
      && (Consistent(w.table) ==> Consistent(w'.table))
      && w'.closures == w.closures
      && w.comments <= w'.comments && |w'.comments| <= |w.comments| + 1
  {
    if HasImmunityLabel(cfg, pr) {
      MarkImmuneFrame(w, cfg, pr, now);
    } else {
      WarnFrame(w, cfg, pr, now);
    }
  }

  /** A warning writes only at the pull request's key and keeps the table's
      invariants. */
  lemma WarnFrame(w: World, cfg: Settings, pr: PullRequest, now: Timestamp)
    requires KeyedById(w.table)
    ensures var t' := Warn(w, cfg, pr, now).table;
      && KeyedById(t')
      && (forall k :: k != KeyOf(pr) ==> Agree(w.table, t', k))
      && (Consistent(w.table) ==> Consistent(t'))
  {
    assert Warn(w, cfg, pr, now).table == Put(w.table, WarnedRecord(pr, now));
    PutFrame(w.table, WarnedRecord(pr, now));
    if Consistent(w.table) {
      PutConsistent(w.table, WarnedRecord(pr, now));
    }
  }

  /** A review step writes only at the record's key when the record names
      its own pull request, and keeps the table's invariants; it posts at
      most one comment and closes at most the record's pull request. */
  lemma ReviewRecordFrame(w: World, cfg: Settings, fetch: (string, nat) -> PullRequest,
                          record: PullRequestRecord, now: Timestamp)
    requires KeyedById(w.table) && KeyMatches(record)
    ensures var w' := ReviewRecord(w, cfg, fetch, record, now);
      && KeyedById(w'.table)
      && (forall k :: k != record.id ==> Agree(w.table, w'.table, k))
      && (Consistent(w.table) ==> Consistent(w'.table))
      && w.comments <= w'.comments && |w'.comments| <= |w.comments| + 1
      && w.closures <= w'.closures && |w'.closures| <= |w.closures| + 1
      && (|w'.closures| > |w.closures| ==>
            w'.closures[|w.closures|] == Closure(record.repositoryFullName, record.prNumber))
  {
    var pr := Fetched(fetch, record.repositoryFullName, record.prNumber);
    var w' := ReviewRecord(w, cfg, fetch, record, now);
    if IsPRActive(pr, record) {
      assert w' == w.(table := Put(w.table, record.(status := Active, lastCheckedAt := now)));
      if Consistent(w.table) {
        PutConsistent(w.table, record.(status := Active, lastCheckedAt := now));
      }
    } else if HasImmunityLabel(cfg, pr) {
      assert w' == MarkImmune(w, cfg, pr, now);
      assert KeyOf(pr) == record.id;
      MarkImmuneFrame(w, cfg, pr, now);
    } else if GraceExpired(record, now, cfg.executionThresholdDays) {
      assert w' == Execute(w, cfg, pr, record, now);
      if Consistent(w.table) {
        PutConsistent(w.table, record.(status := Executed, executedAt := Some(now), lastCheckedAt := now));
      }
    } else {
      assert w' == w;
    }
  }

  // ---------------------------------------------------------------------
  // Whole scans
  // ---------------------------------------------------------------------

  /** A scan keeps the table's invariants, so every WARNED record it leaves
      carries its warning time. */
  lemma {:induction false} ScanPreservesConsistent(w: World, cfg: Settings, candidates: seq<PullRequest>, now: Timestamp)
    requires Consistent(w.table)
    ensures Consistent(Scan(w, cfg, candidates, now).table)
  {
    if candidates != [] {
      var n := |candidates| - 1;
      ScanPreservesConsistent(w, cfg, candidates[..n], now);
      ScanCandidateFrame(Scan(w, cfg, candidates[..n], now), cfg, candidates[n], now);
    }
  }

  /** A scan closes nothing and posts at most one comment per candidate,
      after the comments already posted. */
  lemma {:induction false} ScanLogs(w: World, cfg: Settings, candidates: seq<PullRequest>, now: Timestamp)
    requires KeyedById(w.table)
    ensures var w' := Scan(w, cfg, candidates, now);
      && KeyedById(w'.table)
      && w'.closures == w.closures
      && w.comments <= w'.comments && |w'.comments| <= |w.comments| + |candidates|
  {
    if candidates != [] {
      var n := |candidates| - 1;
      ScanLogs(w, cfg, candidates[..n], now);
      ScanCandidateFrame(Scan(w, cfg, candidates[..n], now), cfg, candidates[n], now);
    }
  }

  /** A scan touches no record but those of its candidates. */
  lemma {:induction false} ScanFrame(w: World, cfg: Settings, candidates: seq<PullRequest>, now: Timestamp, k: string)
    requires KeyedById(w.table)
    requires forall i :: 0 <= i < |candidates| ==> KeyOf(candidates[i]) != k
    ensures Agree(w.table, Scan(w, cfg, candidates, now).table, k)
  {
    if candidates != [] {
      var n := |candidates| - 1;
      ScanFrame(w, cfg, candidates[..n], now, k);
      ScanLogs(w, cfg, candidates[..n], now);
      var w1 := Scan(w, cfg, candidates[..n], now);
      ScanCandidateFrame(w1, cfg, candidates[n], now);
      assert Agree(w1.table, ScanCandidate(w1, cfg, candidates[n], now).table, k);
    }
  }

  /** An EXECUTED record changes in a scan only when an immune candidate for
      the same pull request turns up. */
  lemma ScanKeepsExecuted(w: World, cfg: Settings, candidates: seq<PullRequest>, now: Timestamp, k: string)
    requires KeyedById(w.table) && k in w.table && w.table[k].status == Executed
    requires forall i :: 0 <= i < |candidates| && KeyOf(candidates[i]) == k ==> !HasImmunityLabel(cfg, candidates[i])
    ensures var t' := Scan(w, cfg, candidates, now).table; k in t' && t'[k] == w.table[k]
  {
    ScanKeepsStatus(w, cfg, candidates, now, k);
  }

  lemma {:induction false} ScanKeepsStatus(w: World, cfg: Settings, candidates: seq<PullRequest>, now: Timestamp, k: string)
    requires KeyedById(w.table) && k in w.table && w.table[k].status != Active
    requires forall i :: 0 <= i < |candidates| && KeyOf(candidates[i]) == k ==> !HasImmunityLabel(cfg, candidates[i])
    ensures var t' := Scan(w, cfg, candidates, now).table; k in t' && t'[k] == w.table[k]
  {
    if candidates != [] {
      var n := |candidates| - 1;
      ScanKeepsStatus(w, cfg, candidates[..n], now, k);
      var w1 := Scan(w, cfg, candidates[..n], now);
      ScanLogs(w, cfg, candidates[..n], now);
      var pr := candidates[n];
      if KeyOf(pr) == k {
        assert !HasImmunityLabel(cfg, pr);
        assert Get(w1.table, pr.repositoryFullName, pr.number) == Some(w.table[k]);
        assert ScanCandidate(w1, cfg, pr, now) == w1;
      } else {
        ScanCandidateFrame(w1, cfg, pr, now);
        assert Agree(w1.table, ScanCandidate(w1, cfg, pr, now).table, k);
      }
    }
  }

  // ---------------------------------------------------------------------
  // Scan idempotence
  // ---------------------------------------------------------------------

  /** After a scan, a candidate's record exists, is not ACTIVE, and is IMMUNE
      if the candidate carries an immunity label. */
  predicate SettledFor(cfg: Settings, t: Table, pr: PullRequest) {
    var k := KeyOf(pr);
    k in t && t[k].status != Active && (HasImmunityLabel(cfg, pr) ==> t[k].status == Immune)
  }

  predicate Settled(cfg: Settings, t: Table, candidates: seq<PullRequest>) {
    forall i :: 0 <= i < |candidates| ==> SettledFor(cfg, t, candidates[i])
  }

  lemma ScanCandidateSettles(w: World, cfg: Settings, pr: PullRequest, now: Timestamp)
    requires KeyedById(w.table)
    ensures SettledFor(cfg, ScanCandidate(w, cfg, pr, now).table, pr)
  {
    var r := Get(w.table, pr.repositoryFullName, pr.number);
    if r.Some? {
      assert r.value.id == KeyOf(pr);
    }
  }

  lemma ScanCandidateKeepsSettled(w: World, cfg: Settings, pr: PullRequest, q: PullRequest, now: Timestamp)
    requires KeyedById(w.table) && SettledFor(cfg, w.table, q)
    ensures SettledFor(cfg, ScanCandidate(w, cfg, pr, now).table, q)
  {
    var t' := ScanCandidate(w, cfg, pr, now).table;
    var k := KeyOf(q);
    if KeyOf(pr) == k {
      var r := Get(w.table, pr.repositoryFullName, pr.number);
      assert r == Some(w.table[k]);
      if HasImmunityLabel(cfg, pr) {
        assert t'[k].status == Immune;
      } else {
        assert t' == w.table;
      }
    } else {
      ScanCandidateFrame(w, cfg, pr, now);
      assert Agree(w.table, t', k);
    }
  }

  lemma {:induction false} ScanSettles(w: World, cfg: Settings, candidates: seq<PullRequest>, now: Timestamp)
    requires KeyedById(w.table)
    ensures Settled(cfg, Scan(w, cfg, candidates, now).table, candidates)
  {
    if candidates != [] {
      var n := |candidates| - 1;
      var w' := Scan(w, cfg, candidates[..n], now);
      ScanSettles(w, cfg, candidates[..n], now);
      ScanLogs(w, cfg, candidates[..n], now);
      var t := ScanCandidate(w', cfg, candidates[n], now).table;
      assert Scan(w, cfg, candidates, now).table == t;
      forall i | 0 <= i < |candidates| ensures SettledFor(cfg, t, candidates[i]) {
        if i == n {
          ScanCandidateSettles(w', cfg, candidates[n], now);
        } else {
          assert candidates[..n][i] == candidates[i];
          ScanCandidateKeepsSettled(w', cfg, candidates[n], candidates[i], now);
        }
      }
    }
  }

  lemma {:induction false} ScanChangesNothingWhenSettled(w: World, cfg: Settings, candidates: seq<PullRequest>, now: Timestamp)
    requires Settled(cfg, w.table, candidates)
    ensures Scan(w, cfg, candidates, now) == w
  {
    if candidates != [] {
      var n := |candidates| - 1;
      assert Settled(cfg, w.table, candidates[..n]) by {
        forall i | 0 <= i < n ensures SettledFor(cfg, w.table, candidates[..n][i]) {
          assert candidates[..n][i] == candidates[i];
        }
      }
      ScanChangesNothingWhenSettled(w, cfg, candidates[..n], now);
      assert SettledFor(cfg, w.table, candidates[n]);
    }
  }

  /** Running the scan again over the same candidates, at any later time and
      with nothing changed outside, posts nothing, closes nothing and writes
      nothing. */
  lemma ScanIdempotent(w: World, cfg: Settings, candidates: seq<PullRequest>, now: Timestamp, later: Timestamp)
    requires KeyedById(w.table)
    ensures var once := Scan(w, cfg, candidates, now);
      Scan(once, cfg, candidates, later) == once
  {
    ScanSettles(w, cfg, candidates, now);
    ScanChangesNothingWhenSettled(Scan(w, cfg, candidates, now), cfg, candidates, later);
  }

  // ---------------------------------------------------------------------
  // Whole reviews
  // ---------------------------------------------------------------------

  predicate AllMatch(records: seq<PullRequestRecord>) {
    forall i :: 0 <= i < |records| ==> KeyMatches(records[i])
  }

  /** A review keeps the table's invariants, and posts and closes at most
      once per record, after what was posted and closed before. */
  lemma {:induction false} ReviewLogs(w: World, cfg: Settings, fetch: (string, nat) -> PullRequest,
                                      records: seq<PullRequestRecord>, now: Timestamp)
    requires KeyedById(w.table) && AllMatch(records)
    ensures var w' := Review(w, cfg, fetch, records, now);
      && KeyedById(w'.table)
      && (Consistent(w.table) ==> Consistent(w'.table))
      && w.comments <= w'.comments && |w'.comments| <= |w.comments| + |records|
      && w.closures <= w'.closures && |w'.closures| <= |w.closures| + |records|
  {
    if records != [] {
      var n := |records| - 1;
      PrefixAllMatch(records, n);
      ReviewLogs(w, cfg, fetch, records[..n], now);
      var w1 := Review(w, cfg, fetch, records[..n], now);
      assert Review(w, cfg, fetch, records, now) == ReviewRecord(w1, cfg, fetch, records[n], now);
      ReviewRecordFrame(w1, cfg, fetch, records[n], now);
    }
  }

  lemma PrefixAllMatch(records: seq<PullRequestRecord>, n: nat)
    requires AllMatch(records) && n <= |records|
    ensures AllMatch(records[..n])
  {
    forall i | 0 <= i < n ensures KeyMatches(records[..n][i]) {
      assert records[..n][i] == records[i];
    }
  }

  /** The close request for `record`'s pull request. */
  function CloseOf(record: PullRequestRecord): Closure {
    Closure(record.repositoryFullName, record.prNumber)
  }

  /** `c` closes the pull request of one of `records`. */
  predicate ClosesOneOf(c: Closure, records: seq<PullRequestRecord>) {
    exists i :: 0 <= i < |records| && c == CloseOf(records[i])
  }

  /** Every closure in `cs` is of the pull request of one of `records`. */
  predicate ClosesOnly(cs: seq<Closure>, records: seq<PullRequestRecord>) {
    forall j :: 0 <= j < |cs| ==> ClosesOneOf(cs[j], records)
  }

  lemma ClosesOnlyGrow(cs: seq<Closure>, records: seq<PullRequestRecord>, more: seq<PullRequestRecord>)
    requires ClosesOnly(cs, records) && records <= more
    ensures ClosesOnly(cs, more)
  {
    forall j | 0 <= j < |cs| ensures ClosesOneOf(cs[j], more) {
      var i :| 0 <= i < |records| && cs[j] == CloseOf(records[i]);
      assert more[i] == records[i];
    }
  }

  lemma ClosesOnlyAppend(cs: seq<Closure>, records: seq<PullRequestRecord>, n: nat)
    requires ClosesOnly(cs, records) && n < |records|
    ensures ClosesOnly(cs + [CloseOf(records[n])], records)
  {
    var cs' := cs + [CloseOf(records[n])];
    forall j | 0 <= j < |cs'| ensures ClosesOneOf(cs'[j], records) {
      if j < |cs| {
        assert cs'[j] == cs[j];
      }
    }
  }

  /** A review closes only pull requests of the records it reviews. */
  lemma {:induction false} ReviewClosesOnlyReviewed(w: World, cfg: Settings, fetch: (string, nat) -> PullRequest,
                                                    records: seq<PullRequestRecord>, now: Timestamp)
    ensures var w' := Review(w, cfg, fetch, records, now);
      w.closures <= w'.closures && ClosesOnly(w'.closures[|w.closures|..], records)
  {
    var w' := Review(w, cfg, fetch, records, now);
    if records != [] {
      var n := |records| - 1;
      ReviewClosesOnlyReviewed(w, cfg, fetch, records[..n], now);
      var w1 := Review(w, cfg, fetch, records[..n], now);
      assert w' == ReviewRecord(w1, cfg, fetch, records[n], now);
      ClosesOnlyGrow(w1.closures[|w.closures|..], records[..n], records);
      if |w'.closures| > |w1.closures| {
        assert w'.closures == w1.closures + [CloseOf(records[n])];
        assert w'.closures[|w.closures|..] ==
                 w1.closures[|w.closures|..] + [CloseOf(records[n])];
        ClosesOnlyAppend(w1.closures[|w.closures|..], records, n);
      } else {
        assert w'.closures == w1.closures;
      }
    }
  }

  /** A review touches no record but those it reviews. */
  lemma {:induction false} ReviewFrame(w: World, cfg: Settings, fetch: (string, nat) -> PullRequest,
                                       records: seq<PullRequestRecord>, now: Timestamp, k: string)
    requires KeyedById(w.table) && AllMatch(records)
    requires forall i :: 0 <= i < |records| ==> records[i].id != k
    ensures Agree(w.table, Review(w, cfg, fetch, records, now).table, k)
  {
    if records != [] {
      var n := |records| - 1;
      PrefixAllMatch(records, n);
      ReviewFrame(w, cfg, fetch, records[..n], now, k);
      ReviewLogs(w, cfg, fetch, records[..n], now);
      var w1 := Review(w, cfg, fetch, records[..n], now);
      ReviewRecordFrame(w1, cfg, fetch, records[n], now);
      assert Agree(w1.table, ReviewRecord(w1, cfg, fetch, records[n], now).table, k);
    }
  }

  /** Reviewing the WARNED records of a consistent table leaves every other
      record (ACTIVE, EXECUTED or IMMUNE) exactly as it was: EXECUTED is final
      as far as the review goes. */
  lemma ReviewKeepsUnwarned(w: World, cfg: Settings, fetch: (string, nat) -> PullRequest,
                            records: seq<PullRequestRecord>, now: Timestamp, k: string)
    requires Consistent(w.table) && ListsStatus(w.table, Warned, records)
    requires k in w.table && w.table[k].status != Warned
    ensures var t' := Review(w, cfg, fetch, records, now).table; k in t' && t'[k] == w.table[k]
  {
    assert AllMatch(records);
    ReviewFrame(w, cfg, fetch, records, now, k);
  }

  // ---------------------------------------------------------------------
  // The end-to-end scenario
  // ---------------------------------------------------------------------

  /** The decimal rendering of a two-digit number. */
  lemma TwoDigits(d1: nat, d0: nat)
    requires 1 <= d1 <= 9 && d0 <= 9
    ensures IntToDecimal(10 * d1 + d0) == [DigitChar(d1), DigitChar(d0)]
  {
    assert NatToDecimal(d1) == [DigitChar(d1)];
  }

  /** A table holding one record lists exactly that record under its
      status. */
  lemma SingletonListed(r: PullRequestRecord)
    ensures ListsStatus(map[r.id := r], r.status, [r])
  {
    assert [r][0].id == r.id;
  }

  /** The scan of the end-to-end scenario: pull request #42 of org/repo, 20
      days inactive, no labels, no record, the default warning message. It
      posts exactly one comment, carrying "20" right after the lead text,
      writes one WARNED record stamped `now`, and closes nothing. */
  lemma ScenarioScan(env: Env, now: Timestamp, pr: PullRequest)
    requires Var(env, WARNING_MESSAGE) == ""
    requires pr.repositoryFullName == "org/repo" && pr.number == 42 && pr.labels == []
    requires pr.inactivityDays == 20
    ensures var k := RecordKey("org/repo", 42);
      Scan(World(map[], [], []), SettingsOf(env), [pr], now) ==
        World(map[k := PullRequestRecord(k, "org/repo", 42, Warned, Some(now), None, now)],
              [Comment("org/repo", 42, WarningLead + "20" + WarningTail)],
              [])
  {
    SettingsDefaults(env);
    ScanWithDefaultWarning(SettingsOf(env), now, pr);
  }

  lemma ScanWithDefaultWarning(cfg: Settings, now: Timestamp, pr: PullRequest)
    requires cfg.warningMessage == DefaultWarningMessage
    requires pr.repositoryFullName == "org/repo" && pr.number == 42 && pr.labels == []
    requires pr.inactivityDays == 20
    ensures var k := RecordKey("org/repo", 42);
      Scan(World(map[], [], []), cfg, [pr], now) ==
        World(map[k := PullRequestRecord(k, "org/repo", 42, Warned, Some(now), None, now)],
              [Comment("org/repo", 42, WarningLead + "20" + WarningTail)],
              [])
  {
    var w0 := World(map[], [], []);
    var k := RecordKey("org/repo", 42);
    var warned := PullRequestRecord(k, "org/repo", 42, Warned, Some(now), None, now);
    assert Scan(w0, cfg, [pr], now) == ScanCandidate(w0, cfg, pr, now) by {
      assert [pr][..0] == [];
    }
    assert RenderDays(cfg.warningMessage, 20) == WarningLead + "20" + WarningTail by {
      DefaultWarningRendered(20);
      TwoDigits(2, 0);
    }
    assert !HasImmunityLabel(cfg, pr);
    assert ScanCandidate(w0, cfg, pr, now) ==
             World(w0.table[k := warned],
                   [] + [Comment("org/repo", 42, RenderDays(cfg.warningMessage, 20))],
                   []) by {
      ScanWarns(w0, cfg, pr, now);
    }
    assert w0.table[k := warned] == map[k := warned];
  }

  /** The review of the end-to-end scenario, seven days after the warning,
      with no activity since, no labels and the default configuration: it
      posts one closing comment carrying the current inactivity, closes the
      pull request, and marks the record EXECUTED at that time. */
  lemma ScenarioReview(env: Env, fetch: (string, nat) -> PullRequest, comments: seq<Comment>, now: Timestamp)
    requires Var(env, EXECUTION_THRESHOLD_DAYS) == "" && Var(env, CLOSING_MESSAGE) == ""
    requires var pr := fetch("org/repo", 42);
      pr.updatedAt <= now && pr.labels == [] && pr.inactivityDays == 27
    ensures var k := RecordKey("org/repo", 42);
            var warned := PullRequestRecord(k, "org/repo", 42, Warned, Some(now), None, now);
            var later := now + 7 * DayMillis;
      ListsStatus(map[k := warned], Warned, [warned]) &&
      Review(World(map[k := warned], comments, []), SettingsOf(env), fetch, [warned], later) ==
        World(map[k := PullRequestRecord(k, "org/repo", 42, Executed, Some(now), Some(later), later)],
              comments + [Comment("org/repo", 42, ClosingLead + "27" + ClosingTail)],
              [Closure("org/repo", 42)])
  {
    SettingsDefaults(env);
    SingletonListed(PullRequestRecord(RecordKey("org/repo", 42), "org/repo", 42, Warned, Some(now), None, now));
    ReviewWithDefaultClosing(SettingsOf(env), fetch, comments, now);
  }

  lemma ReviewWithDefaultClosing(cfg: Settings, fetch: (string, nat) -> PullRequest, comments: seq<Comment>, now: Timestamp)
    requires cfg.executionThresholdDays == Some(7) && cfg.closingMessage == DefaultClosingMessage
    requires var pr := fetch("org/repo", 42);
      pr.updatedAt <= now && pr.labels == [] && pr.inactivityDays == 27
    ensures var k := RecordKey("org/repo", 42);
            var warned := PullRequestRecord(k, "org/repo", 42, Warned, Some(now), None, now);
            var later := now + 7 * DayMillis;
      Review(World(map[k := warned], comments, []), cfg, fetch, [warned], later) ==
        World(map[k := PullRequestRecord(k, "org/repo", 42, Executed, Some(now), Some(later), later)],
              comments + [Comment("org/repo", 42, ClosingLead + "27" + ClosingTail)],
              [Closure("org/repo", 42)])
  {
    var k := RecordKey("org/repo", 42);
    var warned := PullRequestRecord(k, "org/repo", 42, Warned, Some(now), None, now);
    var later := now + 7 * DayMillis;
    var w1 := World(map[k := warned], comments, []);
    ReviewSingle(w1, cfg, fetch, warned, later);
    var pr := Fetched(fetch, "org/repo", 42);
    assert !IsPRActive(pr, warned) && !HasImmunityLabel(cfg, pr);
    assert DaysSince(now, later) == 7;
    ClosingRendered27(cfg);
    var executed := PullRequestRecord(k, "org/repo", 42, Executed, Some(now), Some(later), later);
    assert ReviewRecord(w1, cfg, fetch, warned, later) ==
             World(w1.table[k := executed],
                   comments + [Comment("org/repo", 42, RenderDays(cfg.closingMessage, 27))],
                   [] + [Closure("org/repo", 42)]) by {
      ReviewExecutes(w1, cfg, fetch, warned, later);
    }
    assert w1.table[k := executed] == map[k := executed];
  }

  /** A review of a one-record snapshot is that record's review step. */
  lemma ReviewSingle(w: World, cfg: Settings, fetch: (string, nat) -> PullRequest,
                     record: PullRequestRecord, now: Timestamp)
    ensures Review(w, cfg, fetch, [record], now) == ReviewRecord(w, cfg, fetch, record, now)
  {
    assert [record][..0] == [];
  }

  /** The default closing message for 27 days of inactivity. */
  lemma ClosingRendered27(cfg: Settings)
    requires cfg.closingMessage == DefaultClosingMessage
    ensures RenderDays(cfg.closingMessage, 27) == ClosingLead + "27" + ClosingTail
  {
    DefaultClosingRendered(27);
    TwoDigits(2, 7);
    assert [DigitChar(2), DigitChar(7)] == "27";
    assert IntToDecimal(27) == "27";
  }
}
