/** The record store: a table of tracking records keyed by `id`, where every
    write is an unconditional overwrite of the entry at the record's `id`. */
module RecordStore {
  import opened Wrappers
  import opened Entities

  type Table = map<string, PullRequestRecord>

  /** Every entry sits under its own `id`, as every write puts it there. */
  predicate KeyedById(t: Table) {
    forall k :: k in t ==> t[k].id == k
  }

  /** The table after a write of `r` (the source's `create` and `update`
      both send the same put). */
  function Put(t: Table, r: PullRequestRecord): (t': Table)
    ensures r.id in t' && t'[r.id] == r
    ensures forall k :: k != r.id ==> (k in t' <==> k in t)
    ensures forall k :: k in t && k != r.id ==> t'[k] == t[k]
    ensures KeyedById(t) ==> KeyedById(t')
  {
    t[r.id := r]
  }

  /** The lookup of `findByRepoAndPrNumber`: the entry at `repo#number`. */
  function Get(t: Table, repo: string, number: nat): (r: Option<PullRequestRecord>)
    ensures r.None? <==> RecordKey(repo, number) !in t
    ensures r.Some? ==> r.value == t[RecordKey(repo, number)]
  {
    var k := RecordKey(repo, number);
    if k in t then Some(t[k]) else None
  }

  /** `rs` lists the records of `t` with status `s`: each exactly once, each
      as it is stored, and no other record. */
  predicate ListsStatus(t: Table, s: PullRequestStatus, rs: seq<PullRequestRecord>) {
    && (forall i :: 0 <= i < |rs| ==> rs[i].status == s && rs[i].id in t && t[rs[i].id] == rs[i])
    && (forall i, j :: 0 <= i < j < |rs| ==> rs[i].id != rs[j].id)
    && (forall k :: k in t && t[k].status == s ==> exists i :: 0 <= i < |rs| && rs[i].id == k)
  }

  /** A write followed by a lookup of the written record's pull request
      returns that record. */
  lemma PutThenGet(t: Table, r: PullRequestRecord)
    requires KeyMatches(r)
    ensures Get(Put(t, r), r.repositoryFullName, r.prNumber) == Some(r)
  {
  }

  /** A write of one pull request's record leaves every other pull request's
      lookup as it was. */
  lemma PutOtherUnchanged(t: Table, r: PullRequestRecord, repo: string, number: nat)
    requires KeyMatches(r)
    requires repo != r.repositoryFullName || number != r.prNumber
    ensures Get(Put(t, r), repo, number) == Get(t, repo, number)
  {
    if RecordKey(repo, number) == r.id {
      KeyInjective(repo, number, r.repositoryFullName, r.prNumber);
    }
  }

  /** A lookup in a table never written is absent. */
  lemma GetEmpty(repo: string, number: nat)
    ensures Get(map[], repo, number) == None
  {
  }

  /** The in-memory stand-in for the DynamoDB table. */
  class PullRequestRepository {
    var table: Table

    ghost predicate Valid()
      reads this
    {
      KeyedById(table)
    }

    constructor ()
      ensures Valid() && table == map[]
    {
      table := map[];
    }

    /** `create`: an unconditional put of `record` at its `id`. */
    method Create(record: PullRequestRecord)
      requires Valid()
      modifies this
      ensures Valid() && table == Put(old(table), record)
    {
      table := table[record.id := record];
    }

    /** `update`: the same unconditional put as `create`. */
    method Update(record: PullRequestRecord)
      requires Valid()
      modifies this
      ensures Valid() && table == Put(old(table), record)
    {
      table := table[record.id := record];
    }

    /** `findByRepoAndPrNumber`: the record at `repo#number`, if any. */
    method FindByRepoAndPrNumber(repo: string, number: nat) returns (r: Option<PullRequestRecord>)
      ensures r.None? <==> RecordKey(repo, number) !in table
      ensures r.Some? ==> r.value == table[RecordKey(repo, number)]
    {
      var id := RecordKey(repo, number);
      r := if id in table then Some(table[id]) else None;
    }

    /** `findByStatus`: every record with status `s`, in no particular order. */
    method FindByStatus(s: PullRequestStatus) returns (rs: seq<PullRequestRecord>)
      requires Valid()
      ensures ListsStatus(table, s, rs)
    {
      rs := [];
      var remaining := table.Keys;
      while remaining != {}
        invariant remaining <= table.Keys
        invariant forall i :: 0 <= i < |rs| ==>
                    rs[i].status == s && rs[i].id in table && rs[i].id !in remaining && table[rs[i].id] == rs[i]
        invariant forall i, j :: 0 <= i < j < |rs| ==> rs[i].id != rs[j].id
        invariant forall k :: k in table && k !in remaining && table[k].status == s ==>
                    exists i :: 0 <= i < |rs| && rs[i].id == k
        decreases remaining
      {
        var k :| k in remaining;
        if table[k].status == s {
          ghost var before := rs;
          rs := rs + [table[k]];
          assert forall i :: 0 <= i < |before| ==> rs[i] == before[i];
          assert rs[|rs| - 1].id == k;
        }
        remaining := remaining - {k};
      }
    }
  }
}
