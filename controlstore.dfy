/**
  The second generation of the control store, shared by the object buffer, the task claim and
  the loader: destinations are keyed by a `source_id`, tasks carry a `registration_time`, and
  `strload_jobs` records every attempt to load a task.
*/
module ControlStores {
  import opened Wrappers
  import opened Windowing

  /** A row of `strload_tables`; the key of its window is the row's `source_id`. */
  datatype SourceTable = SourceTable(schemaName: string, tableName: string, window: Window<string>)

  /** The `status` column of `strload_jobs`. */
  datatype Status = Running | Success | Failure | Error

  /**
    A row of `strload_jobs`.  `LoadTask.load` fills `loader_id` and leaves `process_id` NULL;
    `assign_task` fills `process_id` and leaves `loader_id` NULL.  `finishTime` and `message`
    stay NULL until a result is written.
  */
  datatype JobRow = JobRow(
    jobSeq: nat,
    taskSeq: nat,
    loaderId: Option<string>,
    processId: Option<string>,
    status: Status,
    startTime: int,
    finishTime: Option<int>,
    message: Option<string>)

  /** The tables of the second-generation control store. */
  datatype Db = Db(tables: seq<SourceTable>, backlog: Backlog<string>, jobs: seq<JobRow>, nextJobSeq: nat)

  /** The batching configuration of every table row, in row order. */
  function Windows(db: Db): (r: seq<Window<string>>)
    ensures |r| == |db.tables|
    ensures forall i :: 0 <= i < |r| ==> r[i] == db.tables[i].window
  {
    seq(|db.tables|, i requires 0 <= i < |db.tables| => db.tables[i].window)
  }

  /** `job_seq` is ascending in row order and below the next serial value. */
  predicate JobsOrdered(db: Db)
  {
    && (forall i, j :: 0 <= i < j < |db.jobs| ==> db.jobs[i].jobSeq < db.jobs[j].jobSeq)
    && (forall j :: j in db.jobs ==> j.jobSeq < db.nextJobSeq)
  }

  /** Every job belongs to an existing task. */
  predicate JobsReferenceTasks(db: Db)
  {
    forall j :: j in db.jobs ==> exists t :: t in db.backlog.tasks && t.taskSeq == j.taskSeq
  }

  predicate Consistent(db: Db)
  {
    && Windowing.Valid(Windows(db), db.backlog)
    && JobsOrdered(db)
    && JobsReferenceTasks(db)
  }

  /** The table row of `sourceId`, if any. */
  function TableFor(tables: seq<SourceTable>, sourceId: string): (r: Option<SourceTable>)
    ensures r.Some? ==> r.value in tables && r.value.window.key == sourceId
    ensures r.None? ==> forall t :: t in tables ==> t.window.key != sourceId
  {
    if tables == [] then None
    else if tables[0].window.key == sourceId then Some(tables[0])
    else TableFor(tables[1..], sourceId)
  }

  /** The task row numbered `taskSeq`, if any. */
  function TaskBySeq(tasks: seq<TaskRow<string>>, taskSeq: nat): (r: Option<TaskRow<string>>)
    ensures r.Some? ==> r.value in tasks && r.value.taskSeq == taskSeq
    ensures r.None? ==> forall t :: t in tasks ==> t.taskSeq != taskSeq
  {
    if tasks == [] then None
    else if tasks[0].taskSeq == taskSeq then Some(tasks[0])
    else TaskBySeq(tasks[1..], taskSeq)
  }

  /** Whether some job row, of any status, exists for task `taskSeq`. */
  predicate HasJob(jobs: seq<JobRow>, taskSeq: nat)
  {
    exists j :: j in jobs && j.taskSeq == taskSeq
  }

  /** Inserts a `running` job for `taskSeq` with the given id columns, started at `now`. */
  function AppendJob(db: Db, taskSeq: nat, loaderId: Option<string>, processId: Option<string>, now: int): Db
  {
    db.(jobs := db.jobs + [JobRow(db.nextJobSeq, taskSeq, loaderId, processId, Running, now, None, None)],
        nextJobSeq := db.nextJobSeq + 1)
  }

  /** Appending a job for an existing task keeps the invariant, and the task then has a job. */
  lemma AppendJobConsistent(db: Db, taskSeq: nat, loaderId: Option<string>, processId: Option<string>, now: int)
    requires Consistent(db)
    requires exists t :: t in db.backlog.tasks && t.taskSeq == taskSeq
    ensures Consistent(AppendJob(db, taskSeq, loaderId, processId, now))
    ensures HasJob(AppendJob(db, taskSeq, loaderId, processId, now).jobs, taskSeq)
  {
    var db' := AppendJob(db, taskSeq, loaderId, processId, now);
    assert db'.jobs[|db.jobs|].taskSeq == taskSeq;
  }

  /** The control-store database, shared by every component that opens a connection to it. */
  class ControlStore {
    var db: Db

    constructor(db: Db)
      ensures this.db == db
    {
      this.db := db;
    }
  }
}
