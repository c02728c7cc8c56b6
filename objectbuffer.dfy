/**
  The second-generation object buffer: objects are filed under the `source_id` spelled from
  their schema and table, and `flush` cuts and fills tasks in one transaction.
*/
module ObjectBuffers {
  import opened Wrappers
  import opened Windowing
  import opened ControlStores
  import Names

  /** An object announced by a creation event, with the destination its url maps to. */
  datatype LoadableObject = LoadableObject(url: string, size: int, schemaName: string, tableName: string)

  /** The `source_id` an object is filed under: its schema and table joined by a dot. */
  function QualifiedName(obj: LoadableObject): (r: string)
    ensures |r| == |obj.schemaName| + 1 + |obj.tableName|
    ensures r[..|obj.schemaName|] == obj.schemaName && r[|obj.schemaName|] == '.'
    ensures r[|obj.schemaName| + 1..] == obj.tableName
  {
    Names.QualifiedName(obj.schemaName, obj.tableName)
  }

  /** `insert_object`: one object row, unless the url is known or the source is unregistered. */
  function InsertObject(db: Db, obj: LoadableObject, now: int): Db
  {
    var sourceId := QualifiedName(obj);
    if HasUrl(db.backlog.objects, obj.url) || TableFor(db.tables, sourceId).None? then db
    else db.(backlog := AppendObject(db.backlog, sourceId, obj.url, obj.size, now))
  }

  /**
    `put` adds no row when the url is known or no table row has the object's `source_id`, and
    otherwise exactly one row carrying that `source_id`, the url, the size and the time.
  */
  lemma InsertObjectSpec(db: Db, obj: LoadableObject, now: int)
    ensures var db' := InsertObject(db, obj, now);
      var registered := exists t :: t in db.tables && t.window.key == QualifiedName(obj);
      && db'.tables == db.tables && db'.jobs == db.jobs
      && db'.backlog.tasks == db.backlog.tasks
      && db'.backlog.assignments == db.backlog.assignments
      && (HasUrl(db.backlog.objects, obj.url) || !registered ==> db' == db)
      && (!HasUrl(db.backlog.objects, obj.url) && registered ==>
            db'.backlog.objects == db.backlog.objects
              + [ObjectRow(db.backlog.nextObjectSeq, QualifiedName(obj), obj.url, obj.size, now)])
  {
    var sourceId := QualifiedName(obj);
    if !HasUrl(db.backlog.objects, obj.url) && (exists t :: t in db.tables && t.window.key == sourceId) {
      assert TableFor(db.tables, sourceId).Some?;
    }
  }

  /** Putting the same object twice files it once. */
  lemma InsertObjectIdempotent(db: Db, obj: LoadableObject, now: int, later: int)
    ensures InsertObject(InsertObject(db, obj, now), obj, later) == InsertObject(db, obj, now)
  {
    if !HasUrl(db.backlog.objects, obj.url) && TableFor(db.tables, QualifiedName(obj)).Some? {
      AppendObjectRecords(db.backlog, QualifiedName(obj), obj.url, obj.size, now);
    }
  }

  /** `put` keeps the control-store invariant. */
  lemma InsertObjectConsistent(db: Db, obj: LoadableObject, now: int)
    requires Consistent(db)
    ensures Consistent(InsertObject(db, obj, now))
  {
    if !HasUrl(db.backlog.objects, obj.url) && TableFor(db.tables, QualifiedName(obj)).Some? {
      AppendObjectValid(Windows(db), db.backlog, QualifiedName(obj), obj.url, obj.size, now);
    }
  }

  /** `flush`: cut tasks, then fill the oldest empty task of every source. */
  function Flushed(db: Db, now: int): Db
  {
    db.(backlog := CutAndFill(Windows(db), db.backlog, now))
  }

  /** `flush` keeps the control-store invariant and leaves the object rows and jobs alone. */
  lemma FlushConsistent(db: Db, now: int)
    requires Consistent(db)
    ensures var db' := Flushed(db, now);
      && Consistent(db')
      && db'.backlog.objects == db.backlog.objects && db'.jobs == db.jobs
      && db'.backlog.tasks[..|db.backlog.tasks|] == db.backlog.tasks
  {
    var db' := Flushed(db, now);
    CutAndFillValid(Windows(db), db.backlog, now);
    InsertTasksAppends(Windows(db), db.backlog, now);
    forall j | j in db'.jobs ensures exists t :: t in db'.backlog.tasks && t.taskSeq == j.taskSeq {
      var t :| t in db.backlog.tasks && t.taskSeq == j.taskSeq;
      var k :| 0 <= k < |db.backlog.tasks| && db.backlog.tasks[k] == t;
      assert db'.backlog.tasks[k] == t;
    }
  }

  /** The object buffer of the second generation, writing through a shared control store. */
  class ObjectBuffer {
    const ctl: ControlStore
    /** Seconds between flushes; read by the caller that schedules them. */
    const flushInterval: int

    constructor(ctl: ControlStore, flushInterval: int := 60)
      ensures this.ctl == ctl && this.flushInterval == flushInterval
    {
      this.ctl := ctl;
      this.flushInterval := flushInterval;
    }

    /** `put`: files one object. */
    method Put(obj: LoadableObject, now: int)
      requires Consistent(ctl.db)
      modifies ctl
      ensures ctl.db == InsertObject(old(ctl.db), obj, now)
      ensures Consistent(ctl.db)
    {
      InsertObjectConsistent(ctl.db, obj, now);
      ctl.db := InsertObject(ctl.db, obj, now);
    }

    /** `flush`: `insert_tasks`, then `insert_task_objects`, in one transaction. */
    method Flush(now: int)
      requires Consistent(ctl.db)
      modifies ctl
      ensures ctl.db == Flushed(old(ctl.db), now)
      ensures Consistent(ctl.db)
    {
      FlushConsistent(ctl.db, now);
      var windows := Windows(ctl.db);
      var cut := InsertTasks(windows, ctl.db.backlog, now);
      ctl.db := ctl.db.(backlog := Fill(windows, cut));
    }
  }
}
