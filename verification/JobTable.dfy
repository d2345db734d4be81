/** The rows of the jobs table (server/api/jobs/jobs.go): created once, replaced by results. */
module JobTable {
  import opened Wrappers

  const RUNNING := "running"

  datatype Job = Job(jid: string, status: string, clientID: string, multiJobID: Option<string>, details: string)

  /** A statement; one that does not reach the database has no effect. */
  datatype Statement = Create(job: Job, stores: bool) | Save(job: Job, stores: bool)

  type Rows = map<string, Job>

  class SqliteProvider {
    var rows: Rows

    constructor ()
      ensures rows == map[]
    {
      rows := map[];
    }

    /** Insert or replace. */
    method SaveJob(job: Job, stores: bool) returns (ok: bool)
      modifies this
      ensures ok == stores
      ensures rows == Apply(old(rows), Save(job, stores))
      ensures rows == if stores then old(rows)[job.jid := job] else old(rows)
    {
      if !stores {
        return false;
      }
      rows := rows[job.jid := job];
      ok := true;
    }

    /** Insert; that the row exists already is not an error. */
    method CreateJob(job: Job, stores: bool) returns (ok: bool)
      modifies this
      ensures ok == stores
      ensures rows == Apply(old(rows), Create(job, stores))
      ensures rows == if stores && job.jid !in old(rows) then old(rows)[job.jid := job] else old(rows)
    {
      if !stores {
        return false;
      }
      if job.jid in rows {
        return true;
      }
      rows := rows[job.jid := job];
      ok := true;
    }
  }

  function Lookup(rows: Rows, jid: string): Option<Job> { if jid in rows then Some(rows[jid]) else None }

  function Apply(rows: Rows, op: Statement): Rows {
    if !op.stores || (op.Create? && op.job.jid in rows) then rows else rows[op.job.jid := op.job]
  }

  function Run(ops: seq<Statement>): Rows {
    if ops == [] then map[] else Apply(Run(ops[..|ops| - 1]), ops[|ops| - 1])
  }

  /** The job in the latest save of `jid` that was stored. */
  function LastSaved(ops: seq<Statement>, jid: string): Option<Job> {
    if ops == [] then None
    else
      var op := ops[|ops| - 1];
      if op.Save? && op.stores && op.job.jid == jid then Some(op.job) else LastSaved(ops[..|ops| - 1], jid)
  }

  /** The job in the earliest create of `jid` that was stored. */
  function FirstCreated(ops: seq<Statement>, jid: string): Option<Job> {
    if ops == [] then None
    else if ops[0].Create? && ops[0].stores && ops[0].job.jid == jid then Some(ops[0].job)
    else FirstCreated(ops[1..], jid)
  }

  lemma {:induction false} FirstCreatedAppend(ops: seq<Statement>, op: Statement, jid: string)
    ensures FirstCreated(ops + [op], jid) ==
            if FirstCreated(ops, jid).Some? then FirstCreated(ops, jid) else FirstCreated([op], jid)
  {
    if ops == [] {
      assert [] + [op] == [op];
    } else {
      assert (ops + [op])[1..] == ops[1..] + [op];
      FirstCreatedAppend(ops[1..], op, jid);
    }
  }

  /** For every interleaving of creates and saves, failed ones included: the row is the job saved
      last, or else the one created first. */
  lemma {:induction false} RowIsLastSavedOrFirstCreated(ops: seq<Statement>, jid: string)
    ensures Lookup(Run(ops), jid) ==
            if LastSaved(ops, jid).Some? then LastSaved(ops, jid) else FirstCreated(ops, jid)
  {
    if ops != [] {
      var front, op := ops[..|ops| - 1], ops[|ops| - 1];
      RowIsLastSavedOrFirstCreated(front, jid);
      assert ops == front + [op];
      FirstCreatedAppend(front, op, jid);
      assert [op][1..] == [];
    }
  }

  /** The rows do not depend on the order in which a create and a save of the same job arrive. */
  lemma CreateAndSaveCommute(rows: Rows, created: Job, saved: Job, stores: bool)
    requires created.jid == saved.jid
    ensures Apply(Apply(rows, Create(created, stores)), Save(saved, true)) ==
            Apply(Apply(rows, Save(saved, true)), Create(created, stores))
  {}

  /** Once a finished job is saved the row never says running again, unless such a job is saved. */
  lemma {:induction false} FinishedStaysFinished(ops: seq<Statement>, jid: string)
    requires LastSaved(ops, jid).Some?
    requires forall i | 0 <= i < |ops| && ops[i].Save? :: ops[i].job.status != RUNNING
    ensures Lookup(Run(ops), jid).Some? && Lookup(Run(ops), jid).value.status != RUNNING
  {
    RowIsLastSavedOrFirstCreated(ops, jid);
    LastSavedStatus(ops, jid);
  }

  lemma {:induction false} LastSavedStatus(ops: seq<Statement>, jid: string)
    requires LastSaved(ops, jid).Some?
    ensures exists i :: 0 <= i < |ops| && ops[i].Save? && LastSaved(ops, jid) == Some(ops[i].job)
  {
    var front, op := ops[..|ops| - 1], ops[|ops| - 1];
    if !(op.Save? && op.stores && op.job.jid == jid) {
      LastSavedStatus(front, jid);
      var i :| 0 <= i < |front| && front[i].Save? && LastSaved(front, jid) == Some(front[i].job);
      assert ops[i] == front[i];
    }
  }
}
