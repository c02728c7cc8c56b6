/**
  `LoadTask.load`: a loader claims the oldest claimable task by inserting a `running` job for
  it, then reads back its own most recently started running job together with the urls of the
  objects of that job's task.
*/
module LoadTasks {
  import opened Wrappers
  import opened Windowing
  import opened ControlStores
  import Names

  /** A task handed to a loader (the uuid columns `task_id` and `job_id` are not modelled). */
  datatype LoadTask = LoadTask(
    taskSeq: nat,
    sourceId: string,
    schemaName: string,
    tableName: string,
    jobSeq: nat,
    objectUrls: seq<string>)
  {
    /** The destination's schema and table joined by a dot. */
    function QualifiedName(): (r: string)
      ensures |r| == |schemaName| + 1 + |tableName|
      ensures r[..|schemaName|] == schemaName && r[|schemaName|] == '.' && r[|schemaName| + 1..] == tableName
    {
      Names.QualifiedName(schemaName, tableName)
    }
  }

  // ---------------------------------------------------------------------------------------
  // The claim (the first statement)
  // ---------------------------------------------------------------------------------------

  /** A task may be claimed when it has no job at all and its source is registered and enabled. */
  predicate Claimable(db: Db, t: TaskRow<string>)
  {
    && !HasJob(db.jobs, t.taskSeq)
    && exists tbl :: tbl in db.tables && tbl.window.key == t.key && !tbl.window.disabled
  }

  /**
    The claimable task with the earliest registration time (`order by registration_time limit
    1`); among equal times the first in row order.
  */
  function EarliestClaimable(db: Db, tasks: seq<TaskRow<string>>): Option<TaskRow<string>>
  {
    if tasks == [] then None
    else
      var rest := EarliestClaimable(db, tasks[1..]);
      if !Claimable(db, tasks[0]) then rest
      else if rest.Some? && rest.value.submitTime < tasks[0].submitTime then rest
      else Some(tasks[0])
  }

  /**
    The selection answers a claimable task registered no later than any other claimable task,
    and answers none exactly when no task is claimable.
  */
  lemma {:induction false} EarliestClaimableSpec(db: Db, tasks: seq<TaskRow<string>>)
    ensures var r := EarliestClaimable(db, tasks);
      && (r.Some? ==> r.value in tasks && Claimable(db, r.value))
      && (r.Some? ==> forall t :: t in tasks && Claimable(db, t) ==> r.value.submitTime <= t.submitTime)
      && (r.None? ==> forall t :: t in tasks ==> !Claimable(db, t))
  {
    if tasks != [] {
      EarliestClaimableSpec(db, tasks[1..]);
      assert forall t :: t in tasks ==> t == tasks[0] || t in tasks[1..];
    }
  }

  /** The job insert of `LoadTask.load`: at most one `running` job, for the earliest claimable task. */
  function Claim(db: Db, loaderId: string, now: int): Db
  {
    match EarliestClaimable(db, db.backlog.tasks)
    case None => db
    case Some(t) => AppendJob(db, t.taskSeq, Some(loaderId), None, now)
  }

  // ---------------------------------------------------------------------------------------
  // The fetch (the second and third statements)
  // ---------------------------------------------------------------------------------------

  /** The task of job `j` and the table row of that task's source, when both exist. */
  function JoinedTask(db: Db, j: JobRow): Option<(TaskRow<string>, SourceTable)>
  {
    match TaskBySeq(db.backlog.tasks, j.taskSeq)
    case None => None
    case Some(t) =>
      match TableFor(db.tables, t.key)
      case None => None
      case Some(tbl) => Some((t, tbl))
  }

  /** Job `j` is a running job of this loader whose task and table join. */
  predicate Fetchable(db: Db, j: JobRow, loaderId: string)
  {
    j.status == Running && j.loaderId == Some(loaderId) && JoinedTask(db, j).Some?
  }

  /**
    The fetchable job with the latest start time (`order by start_time desc limit 1`); among
    equal times the last in row order.
  */
  function LatestRunningJob(db: Db, jobs: seq<JobRow>, loaderId: string): Option<JobRow>
  {
    if jobs == [] then None
    else
      var rest := LatestRunningJob(db, jobs[1..], loaderId);
      if !Fetchable(db, jobs[0], loaderId) then rest
      else if rest.Some? && rest.value.startTime >= jobs[0].startTime then rest
      else Some(jobs[0])
  }

  /**
    The selection answers a fetchable job started no earlier than any other fetchable job, and
    answers none exactly when no job is fetchable.
  */
  lemma {:induction false} LatestRunningJobSpec(db: Db, jobs: seq<JobRow>, loaderId: string)
    ensures var r := LatestRunningJob(db, jobs, loaderId);
      && (r.Some? ==> r.value in jobs && Fetchable(db, r.value, loaderId))
      && (r.Some? ==> forall j :: j in jobs && Fetchable(db, j, loaderId) ==> j.startTime <= r.value.startTime)
      && (r.None? ==> forall j :: j in jobs ==> !Fetchable(db, j, loaderId))
  {
    if jobs != [] {
      LatestRunningJobSpec(db, jobs[1..], loaderId);
      assert forall j :: j in jobs ==> j == jobs[0] || j in jobs[1..];
    }
  }

  /**
    A job that is not fetchable, appended after the others, does not change the selection; nor
    does a change of the job table alone.
  */
  lemma {:induction false} LatestIgnoresUnfetchable(db: Db, db': Db, jobs: seq<JobRow>, x: JobRow, loaderId: string)
    requires db'.tables == db.tables && db'.backlog == db.backlog
    requires !Fetchable(db', x, loaderId)
    ensures LatestRunningJob(db', jobs + [x], loaderId) == LatestRunningJob(db, jobs, loaderId)
  {
    if jobs == [] {
      assert (jobs + [x])[1..] == [];
    } else {
      assert (jobs + [x])[1..] == jobs[1..] + [x];
      LatestIgnoresUnfetchable(db, db', jobs[1..], x, loaderId);
      assert JoinedTask(db', jobs[0]) == JoinedTask(db, jobs[0]);
    }
  }

  /** The urls of the objects mapped to task `taskSeq`, in object row order. */
  function ObjectUrls(objects: seq<ObjectRow<string>>, assignments: seq<Assignment>, taskSeq: nat): (r: seq<string>)
    ensures |r| <= |objects|
  {
    if objects == [] then []
    else
      var rest := ObjectUrls(objects[1..], assignments, taskSeq);
      if Assignment(taskSeq, objects[0].objectSeq) in assignments then [objects[0].url] + rest else rest
  }

  /** The urls collected are exactly the urls of the objects mapped to the task. */
  lemma {:induction false} ObjectUrlsSpec(objects: seq<ObjectRow<string>>, assignments: seq<Assignment>, taskSeq: nat)
    ensures forall u :: u in ObjectUrls(objects, assignments, taskSeq) <==>
      exists o :: o in objects && o.url == u && Assignment(taskSeq, o.objectSeq) in assignments
  {
    if objects != [] {
      ObjectUrlsSpec(objects[1..], assignments, taskSeq);
      assert forall o :: o in objects ==> o == objects[0] || o in objects[1..];
    }
  }

  /**
    With distinct urls among the object rows, as the store invariant keeps them, each mapped
    object gives its url once: no url is collected twice.
  */
  lemma {:induction false} ObjectUrlsDistinct(objects: seq<ObjectRow<string>>, assignments: seq<Assignment>, taskSeq: nat)
    requires forall i, j :: 0 <= i < j < |objects| ==> objects[i].url != objects[j].url
    ensures Distinct(ObjectUrls(objects, assignments, taskSeq))
  {
    if objects != [] {
      var rest := ObjectUrls(objects[1..], assignments, taskSeq);
      ObjectUrlsDistinct(objects[1..], assignments, taskSeq);
      ObjectUrlsSpec(objects[1..], assignments, taskSeq);
      forall o | o in objects[1..]
        ensures o.url != objects[0].url
      {
        var k :| 0 <= k < |objects[1..]| && objects[1..][k] == o;
        assert objects[k + 1] == o;
      }
      assert objects[0].url !in rest;
    }
  }

  /** The task `LoadTask.load` answers in state `db`, or `None` (nil). */
  function Fetch(db: Db, loaderId: string): Option<LoadTask>
  {
    match LatestRunningJob(db, db.jobs, loaderId)
    case None => None
    case Some(j) =>
      match JoinedTask(db, j)
      case None => None
      case Some((t, tbl)) =>
        Some(LoadTask(j.taskSeq, t.key, tbl.schemaName, tbl.tableName, j.jobSeq,
                      ObjectUrls(db.backlog.objects, db.backlog.assignments, j.taskSeq)))
  }

  /** `LoadTask.load` on a connection to the shared control store. */
  method Load(ctl: ControlStore, loaderId: string, now: int) returns (task: Option<LoadTask>)
    modifies ctl
    ensures ctl.db == Claim(old(ctl.db), loaderId, now)
    ensures task == Fetch(ctl.db, loaderId)
  {
    ctl.db := Claim(ctl.db, loaderId, now);
    var job := LatestRunningJob(ctl.db, ctl.db.jobs, loaderId);
    if job.None? {
      return None;
    }
    var joined := JoinedTask(ctl.db, job.value);
    if joined.None? {
      return None;
    }
    var (t, tbl) := joined.value;
    var urls := ObjectUrls(ctl.db.backlog.objects, ctl.db.backlog.assignments, job.value.taskSeq);
    task := Some(LoadTask(job.value.taskSeq, t.key, tbl.schemaName, tbl.tableName, job.value.jobSeq, urls));
  }

  // ---------------------------------------------------------------------------------------
  // Properties
  // ---------------------------------------------------------------------------------------

  /**
    One call inserts at most one job and changes nothing else.  It inserts none exactly when no
    task is claimable; otherwise the new job is `running`, owned by this loader, started now,
    without result, and belongs to a claimable task registered no later than any other.
  */
  lemma ClaimSpec(db: Db, loaderId: string, now: int)
    ensures var db' := Claim(db, loaderId, now);
      && db'.tables == db.tables && db'.backlog == db.backlog
      && |db.jobs| <= |db'.jobs| <= |db.jobs| + 1
      && db'.jobs[..|db.jobs|] == db.jobs
      && ((|db'.jobs| == |db.jobs|) <==> forall t :: t in db.backlog.tasks ==> !Claimable(db, t))
      && (|db'.jobs| > |db.jobs| ==>
            var j := db'.jobs[|db.jobs|];
            && j == JobRow(db.nextJobSeq, j.taskSeq, Some(loaderId), None, Running, now, None, None)
            && exists t :: && t in db.backlog.tasks && t.taskSeq == j.taskSeq && Claimable(db, t)
                          && forall u :: u in db.backlog.tasks && Claimable(db, u) ==> t.submitTime <= u.submitTime)
  {
    EarliestClaimableSpec(db, db.backlog.tasks);
    var c := EarliestClaimable(db, db.backlog.tasks);
    if c.None? {
      assert Claim(db, loaderId, now) == db;
    }
  }

  /** The claim keeps the control-store invariant. */
  lemma ClaimConsistent(db: Db, loaderId: string, now: int)
    requires Consistent(db)
    ensures Consistent(Claim(db, loaderId, now))
  {
    EarliestClaimableSpec(db, db.backlog.tasks);
    var c := EarliestClaimable(db, db.backlog.tasks);
    if c.Some? {
      AppendJobConsistent(db, c.value.taskSeq, Some(loaderId), None, now);
    }
  }

  /**
    The fetch answers nil exactly when this loader has no running job whose task and table
    join; otherwise it answers that job's task with the latest start time, its source, the
    schema and table of the source's table row, and exactly the urls mapped to the task,
    each once when the object rows' urls are distinct.
  */
  lemma FetchSpec(db: Db, loaderId: string)
    ensures var r := Fetch(db, loaderId);
      && (r.None? <==> forall j :: j in db.jobs ==> !Fetchable(db, j, loaderId))
      && (r.Some? ==>
            && (exists j :: && j in db.jobs && Fetchable(db, j, loaderId)
                           && j.jobSeq == r.value.jobSeq && j.taskSeq == r.value.taskSeq
                           && forall j' :: j' in db.jobs && Fetchable(db, j', loaderId) ==> j'.startTime <= j.startTime)
            && (exists t, tbl :: && t in db.backlog.tasks && tbl in db.tables
                               && t.taskSeq == r.value.taskSeq && t.key == r.value.sourceId
                               && tbl.window.key == t.key
                               && tbl.schemaName == r.value.schemaName && tbl.tableName == r.value.tableName)
            && (forall u :: u in r.value.objectUrls <==>
                  exists o :: && o in db.backlog.objects && o.url == u
                              && Assignment(r.value.taskSeq, o.objectSeq) in db.backlog.assignments)
            && (UrlsUnique(db.backlog) ==> Distinct(r.value.objectUrls)))
  {
    LatestRunningJobSpec(db, db.jobs, loaderId);
    var job := LatestRunningJob(db, db.jobs, loaderId);
    if job.Some? {
      ObjectUrlsSpec(db.backlog.objects, db.backlog.assignments, job.value.taskSeq);
      if UrlsUnique(db.backlog) {
        ObjectUrlsDistinct(db.backlog.objects, db.backlog.assignments, job.value.taskSeq);
      }
      var (t, tbl) := JoinedTask(db, job.value).value;
      assert t in db.backlog.tasks && tbl in db.tables;
    }
  }

  /**
    Right after a claim that inserted a job, the fetch cannot answer nil: the new job is a
    running job of this loader whose task and table join.
  */
  lemma ClaimThenFetchFindsJob(db: Db, loaderId: string, now: int)
    requires Consistent(db)
    requires exists t :: t in db.backlog.tasks && Claimable(db, t)
    ensures Fetch(Claim(db, loaderId, now), loaderId).Some?
  {
    EarliestClaimableSpec(db, db.backlog.tasks);
    var t := EarliestClaimable(db, db.backlog.tasks).value;
    var db' := Claim(db, loaderId, now);
    var j := db'.jobs[|db.jobs|];
    TaskSeqIdentifies(db.backlog, TaskBySeq(db.backlog.tasks, t.taskSeq).value, t);
    var tbl :| tbl in db.tables && tbl.window.key == t.key && !tbl.window.disabled;
    assert TableFor(db.tables, t.key).Some?;
    assert Fetchable(db', j, loaderId);
    FetchSpec(db', loaderId);
  }
}
