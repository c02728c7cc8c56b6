/**
  The first generation of the control store, used by the dispatcher: destinations are keyed by
  (schema name, table name), `strload_tables` carries a `data_source_id` per destination, and
  tasks carry a `submit_time`.
*/
module ObjectStores {
  import opened Wrappers
  import opened Windowing
  import Names

  /** A destination table. */
  datatype Dest = Dest(schemaName: string, tableName: string)

  /** A row of `strload_tables`: the data source id and the batching configuration of a destination. */
  datatype TableRow = TableRow(dataSourceId: string, window: Window<Dest>)

  /** An object announced by a creation event, with the destination its url maps to. */
  datatype LoadableObject = LoadableObject(url: string, size: int, schemaName: string, tableName: string)

  /** The tables of the first-generation control store. */
  datatype Db = Db(tables: seq<TableRow>, backlog: Backlog<Dest>)

  /** The data source id an object is filed under: its schema and table joined by a dot. */
  function DataSourceId(obj: LoadableObject): (r: string)
    ensures |r| == |obj.schemaName| + 1 + |obj.tableName|
    ensures r[..|obj.schemaName|] == obj.schemaName && r[|obj.schemaName|] == '.'
    ensures r[|obj.schemaName| + 1..] == obj.tableName
  {
    Names.QualifiedName(obj.schemaName, obj.tableName)
  }

  /** The batching configuration of every table row, in row order. */
  function Windows(db: Db): (r: seq<Window<Dest>>)
    ensures |r| == |db.tables|
    ensures forall i :: 0 <= i < |r| ==> r[i] == db.tables[i].window
  {
    seq(|db.tables|, i requires 0 <= i < |db.tables| => db.tables[i].window)
  }

  /** No two table rows share a data source id. */
  predicate SourceIdsDistinct(tables: seq<TableRow>)
  {
    forall i, j :: 0 <= i < j < |tables| ==> tables[i].dataSourceId != tables[j].dataSourceId
  }

  predicate Consistent(db: Db)
  {
    Windowing.Valid(Windows(db), db.backlog) && SourceIdsDistinct(db.tables)
  }

  /** The table row registered under data source id `id`, if any. */
  function SourceTable(tables: seq<TableRow>, id: string): (r: Option<TableRow>)
    ensures r.Some? ==> r.value in tables && r.value.dataSourceId == id
    ensures r.None? ==> forall t :: t in tables ==> t.dataSourceId != id
  {
    if tables == [] then None
    else if tables[0].dataSourceId == id then Some(tables[0])
    else SourceTable(tables[1..], id)
  }

  /**
    `insert_object`: one object row for the table registered under the object's data source id,
    destined to that table's (schema, table), unless the url is already known.
  */
  function InsertObject(db: Db, obj: LoadableObject, now: int): Db
  {
    match SourceTable(db.tables, DataSourceId(obj))
    case None => db
    case Some(t) =>
      if HasUrl(db.backlog.objects, obj.url) then db
      else db.(backlog := AppendObject(db.backlog, t.window.key, obj.url, obj.size, now))
  }

  /**
    `store` adds no row when the url is known or the data source is unregistered, and otherwise
    exactly one row carrying the url, size and time, destined to a table registered under the
    object's data source id; nothing else changes.
  */
  lemma InsertObjectSpec(db: Db, obj: LoadableObject, now: int)
    ensures var db' := InsertObject(db, obj, now);
      var registered := exists t :: t in db.tables && t.dataSourceId == DataSourceId(obj);
      && db'.tables == db.tables
      && db'.backlog.tasks == db.backlog.tasks
      && db'.backlog.assignments == db.backlog.assignments
      && (HasUrl(db.backlog.objects, obj.url) || !registered ==> db' == db)
      && (!HasUrl(db.backlog.objects, obj.url) && registered ==>
            && |db'.backlog.objects| == |db.backlog.objects| + 1
            && db'.backlog.objects[..|db.backlog.objects|] == db.backlog.objects
            && var o := db'.backlog.objects[|db.backlog.objects|];
               && o.url == obj.url && o.size == obj.size && o.submitTime == now
               && o.objectSeq == db.backlog.nextObjectSeq
               && exists t :: t in db.tables && t.dataSourceId == DataSourceId(obj) && t.window.key == o.key)
  {
    var r := SourceTable(db.tables, DataSourceId(obj));
    if r.Some? && !HasUrl(db.backlog.objects, obj.url) {
      AppendObjectRecords(db.backlog, r.value.window.key, obj.url, obj.size, now);
    }
  }

  /** Storing the same object twice stores it once. */
  lemma InsertObjectIdempotent(db: Db, obj: LoadableObject, now: int, later: int)
    ensures InsertObject(InsertObject(db, obj, now), obj, later) == InsertObject(db, obj, now)
  {
    var r := SourceTable(db.tables, DataSourceId(obj));
    if r.Some? && !HasUrl(db.backlog.objects, obj.url) {
      AppendObjectRecords(db.backlog, r.value.window.key, obj.url, obj.size, now);
    }
  }

  /** `store` keeps the control-store invariant. */
  lemma InsertObjectValid(db: Db, obj: LoadableObject, now: int)
    requires Consistent(db)
    ensures Consistent(InsertObject(db, obj, now))
  {
    var r := SourceTable(db.tables, DataSourceId(obj));
    if r.Some? && !HasUrl(db.backlog.objects, obj.url) {
      AppendObjectValid(Windows(db), db.backlog, r.value.window.key, obj.url, obj.size, now);
    }
  }

  /** The first-generation object store: one control-store connection per call. */
  class ObjectStore {
    var db: Db

    constructor(db: Db)
      ensures this.db == db
    {
      this.db := db;
    }

    /** `store`: files one object. */
    method Store(obj: LoadableObject, now: int)
      requires Consistent(db)
      modifies this
      ensures db == InsertObject(old(db), obj, now)
      ensures Consistent(db)
    {
      InsertObjectValid(db, obj, now);
      db := InsertObject(db, obj, now);
    }

    /**
      `assign_objects_to_tasks`: in one transaction, cut tasks and then fill the oldest empty
      tasks; answers the `task_seq` of every created task, in insertion order.
    */
    method AssignObjectsToTasks(now: int) returns (taskSeqs: seq<nat>)
      requires Consistent(db)
      modifies this
      ensures db == old(db).(backlog := CutAndFill(Windows(old(db)), old(db).backlog, now))
      ensures taskSeqs == CreatedTaskSeqs(Windows(old(db)), old(db).backlog, now)
      ensures Consistent(db)
    {
      var windows := Windows(db);
      CutAndFillValid(windows, db.backlog, now);
      taskSeqs := CreatedTaskSeqs(windows, db.backlog, now);
      var cut := InsertTasks(windows, db.backlog, now);
      db := db.(backlog := Fill(windows, cut));
    }
  }
}
