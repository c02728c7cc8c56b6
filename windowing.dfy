/**
  The batching (windowing) engine shared by both generations of the control store.

  Both generations keep the same four tables and run the same two statements in one
  transaction: cut new tasks (`insert_tasks`), then fill the oldest empty task of each
  destination (`insert_task_objects` / `insert_task_object_mappings`).  They differ only in how a
  destination is keyed: by (schema, table) in the first generation, by a `source_id` string in
  the second.  This module is therefore generic in the key type `K`.

  Every SQL statement is one atomic transition on a `Backlog` value.  Rows are kept in insertion
  order, which for the serial columns `object_seq` and `task_seq` is ascending order.
*/
module Windowing {
  import opened Wrappers

  /** The batching configuration of one row of `strload_tables`. */
  datatype Window<K> = Window(key: K, loadBatchSize: nat, loadInterval: int, disabled: bool)

  /** A row of `strload_objects`. */
  datatype ObjectRow<K> = ObjectRow(objectSeq: nat, key: K, url: string, size: int, submitTime: int)

  /** A row of `strload_tasks` (`submit_time` or `registration_time`). */
  datatype TaskRow<K> = TaskRow(taskSeq: nat, key: K, submitTime: int)

  /** A row of `strload_task_objects`. */
  datatype Assignment = Assignment(taskSeq: nat, objectSeq: nat)

  /** Objects, tasks and their assignments, with the next values of the two serial columns. */
  datatype Backlog<K> = Backlog(
    objects: seq<ObjectRow<K>>,
    tasks: seq<TaskRow<K>>,
    assignments: seq<Assignment>,
    nextObjectSeq: nat,
    nextTaskSeq: nat)


  // ---------------------------------------------------------------------------------------
  // Lookups
  // ---------------------------------------------------------------------------------------

  /** The `object_seq` values that already appear in `strload_task_objects`. */
  function AssignedObjects(assignments: seq<Assignment>): set<nat>
  {
    set x | x in assignments :: x.objectSeq
  }

  /** The `task_seq` values that already have at least one object. */
  function MappedTasks(assignments: seq<Assignment>): set<nat>
  {
    set x | x in assignments :: x.taskSeq
  }

  /** Whether some object row already carries this url. */
  predicate HasUrl<K(==,!new)>(objects: seq<ObjectRow<K>>, url: string)
  {
    exists o :: o in objects && o.url == url
  }

  /** The objects of destination `k` that are not assigned to any task, in row order. */
  function Pending<K(==,!new)>(objects: seq<ObjectRow<K>>, taken: set<nat>, k: K): (r: seq<ObjectRow<K>>)
    ensures |r| <= |objects|
    ensures forall o :: o in r <==> o in objects && o.key == k && o.objectSeq !in taken
  {
    if objects == [] then []
    else if objects[0].key == k && objects[0].objectSeq !in taken then
      [objects[0]] + Pending(objects[1..], taken, k)
    else
      Pending(objects[1..], taken, k)
  }

  /** `max(submit_time)` over the tasks of destination `k`; `None` (SQL NULL) when there is none. */
  function LatestSubmit<K(==,!new)>(tasks: seq<TaskRow<K>>, k: K): (r: Option<int>)
    ensures r.None? <==> forall t :: t in tasks ==> t.key != k
    ensures r.Some? ==> exists t :: t in tasks && t.key == k && t.submitTime == r.value
    ensures r.Some? ==> forall t :: t in tasks && t.key == k ==> t.submitTime <= r.value
  {
    if tasks == [] then None
    else
      var rest := LatestSubmit(tasks[1..], k);
      if tasks[0].key != k then rest
      else if rest.Some? && rest.value > tasks[0].submitTime then rest
      else Some(tasks[0].submitTime)
  }

  /** The load batch size of destination `k`, or 0 when no table row has that key. */
  function BatchSize<K(==,!new)>(windows: seq<Window<K>>, k: K): nat
  {
    if windows == [] then 0
    else if windows[0].key == k then windows[0].loadBatchSize
    else BatchSize(windows[1..], k)
  }

  /** Number of assignment rows of task `taskSeq`. */
  function CountFor(assignments: seq<Assignment>, taskSeq: nat): nat
  {
    if assignments == [] then 0
    else (if assignments[0].taskSeq == taskSeq then 1 else 0) + CountFor(assignments[1..], taskSeq)
  }

  // ---------------------------------------------------------------------------------------
  // Object ingestion
  // ---------------------------------------------------------------------------------------

  /** Appends one object row with the next `object_seq`, submitted at `now`. */
  function AppendObject<K>(b: Backlog<K>, key: K, url: string, size: int, now: int): Backlog<K>
  {
    b.(objects := b.objects + [ObjectRow(b.nextObjectSeq, key, url, size, now)],
       nextObjectSeq := b.nextObjectSeq + 1)
  }

  // ---------------------------------------------------------------------------------------
  // Task cut (insert_tasks)
  // ---------------------------------------------------------------------------------------

  /**
    The where-clause of `insert_tasks` for one table row.  `pendingCount > 0` is the inner join
    with the per-destination count of unassigned objects, which has no row for a destination
    without unassigned objects.  A NULL latest time makes the interval comparison NULL, and the
    third disjunct true.
  */
  predicate CutDue<K>(w: Window<K>, pendingCount: nat, latest: Option<int>, now: int)
  {
    && !w.disabled
    && pendingCount > 0
    && (|| pendingCount > w.loadBatchSize
        || (latest.Some? && now - latest.value > w.loadInterval)
        || latest.None?)
  }

  /** Whether `insert_tasks` cuts a task for table row `w` in state `b` at time `now`. */
  predicate TaskDue<K(==,!new)>(w: Window<K>, b: Backlog<K>, now: int)
  {
    CutDue(w, |Pending(b.objects, AssignedObjects(b.assignments), w.key)|, LatestSubmit(b.tasks, w.key), now)
  }

  /** The destinations that get a task, in table-row order; every row is judged against `b`. */
  function DueKeys<K(==,!new)>(windows: seq<Window<K>>, b: Backlog<K>, now: int): (r: seq<K>)
    ensures |r| <= |windows|
    ensures forall k :: k in r <==> exists w :: w in windows && w.key == k && TaskDue(w, b, now)
  {
    if windows == [] then []
    else if TaskDue(windows[0], b, now) then [windows[0].key] + DueKeys(windows[1..], b, now)
    else DueKeys(windows[1..], b, now)
  }

  /** One task row per key, numbered from `next`, all submitted at `now`. */
  function NewTasks<K>(keys: seq<K>, next: nat, now: int): (r: seq<TaskRow<K>>)
    ensures |r| == |keys|
    ensures forall i :: 0 <= i < |r| ==> r[i] == TaskRow(next + i, keys[i], now)
  {
    if keys == [] then [] else [TaskRow(next, keys[0], now)] + NewTasks(keys[1..], next + 1, now)
  }

  /** `insert_tasks`: the state after the statement. */
  function InsertTasks<K(==,!new)>(windows: seq<Window<K>>, b: Backlog<K>, now: int): Backlog<K>
  {
    var keys := DueKeys(windows, b, now);
    b.(tasks := b.tasks + NewTasks(keys, b.nextTaskSeq, now), nextTaskSeq := b.nextTaskSeq + |keys|)
  }

  /** The `task_seq` values returned by `insert_tasks ... returning task_seq`, in insertion order. */
  function CreatedTaskSeqs<K(==,!new)>(windows: seq<Window<K>>, b: Backlog<K>, now: int): (r: seq<nat>)
  {
    var keys := DueKeys(windows, b, now);
    seq(|keys|, i requires 0 <= i < |keys| => b.nextTaskSeq + i)
  }

  // ---------------------------------------------------------------------------------------
  // Task fill (insert_task_objects)
  // ---------------------------------------------------------------------------------------

  /** The first task of destination `k`, in row order, that has no assigned object yet. */
  function OldestEmptyTask<K(==,!new)>(tasks: seq<TaskRow<K>>, mapped: set<nat>, k: K): (r: Option<TaskRow<K>>)
    ensures r.Some? ==> r.value in tasks && r.value.key == k && r.value.taskSeq !in mapped
    ensures r.None? ==> forall t :: t in tasks && t.key == k ==> t.taskSeq in mapped
  {
    if tasks == [] then None
    else if tasks[0].key == k && tasks[0].taskSeq !in mapped then Some(tasks[0])
    else OldestEmptyTask(tasks[1..], mapped, k)
  }

  /** The first `n` elements of `s`, or all of them when there are fewer. */
  function Take<T>(s: seq<T>, n: nat): (r: seq<T>)
  {
    if |s| <= n then s else s[..n]
  }

  /** One assignment row per object, all to task `taskSeq`, in the order of `objs`. */
  function AssignAll<K>(taskSeq: nat, objs: seq<ObjectRow<K>>): (r: seq<Assignment>)
    ensures |r| == |objs|
    ensures forall i :: 0 <= i < |r| ==> r[i] == Assignment(taskSeq, objs[i].objectSeq)
  {
    if objs == [] then [] else [Assignment(taskSeq, objs[0].objectSeq)] + AssignAll(taskSeq, objs[1..])
  }

  /**
    The rows `insert_task_objects` adds for table row `w`: the oldest empty task of the
    destination receives the unassigned objects of that destination numbered 1 to
    `load_batch_size` by `row_number() over (order by object_seq)`.
  */
  function FillFor<K(==,!new)>(w: Window<K>, b: Backlog<K>): seq<Assignment>
  {
    match OldestEmptyTask(b.tasks, MappedTasks(b.assignments), w.key)
    case None => []
    case Some(t) => AssignAll(t.taskSeq, Take(Pending(b.objects, AssignedObjects(b.assignments), w.key), w.loadBatchSize))
  }

  /** The rows added for all table rows; every row is judged against the same state `b`. */
  function FillRows<K(==,!new)>(windows: seq<Window<K>>, b: Backlog<K>): seq<Assignment>
  {
    if windows == [] then [] else FillFor(windows[0], b) + FillRows(windows[1..], b)
  }

  /** `insert_task_objects`: the state after the statement. */
  function Fill<K(==,!new)>(windows: seq<Window<K>>, b: Backlog<K>): Backlog<K>
  {
    b.(assignments := b.assignments + FillRows(windows, b))
  }

  /** The transaction of `flush` / `assign_objects_to_tasks`: cut tasks, then fill. */
  function CutAndFill<K(==,!new)>(windows: seq<Window<K>>, b: Backlog<K>, now: int): Backlog<K>
  {
    Fill(windows, InsertTasks(windows, b, now))
  }

  // ---------------------------------------------------------------------------------------
  // The invariant of the control store
  // ---------------------------------------------------------------------------------------

  /** No two table rows configure the same destination. */
  predicate KeysDistinct<K(==,!new)>(windows: seq<Window<K>>)
  {
    forall i, j :: 0 <= i < j < |windows| ==> windows[i].key != windows[j].key
  }

  /** Strictly ascending `object_seq`. */
  predicate Ascending<K>(objs: seq<ObjectRow<K>>)
  {
    forall i, j :: 0 <= i < j < |objs| ==> objs[i].objectSeq < objs[j].objectSeq
  }

  /** `object_seq` is ascending in row order and below the next serial value. */
  predicate ObjectsOrdered<K(==,!new)>(b: Backlog<K>)
  {
    && Ascending(b.objects)
    && (forall o :: o in b.objects ==> o.objectSeq < b.nextObjectSeq)
  }

  /** No two objects share a url. */
  predicate UrlsUnique<K>(b: Backlog<K>)
  {
    forall i, j :: 0 <= i < j < |b.objects| ==> b.objects[i].url != b.objects[j].url
  }

  /** `task_seq` is ascending in row order and below the next serial value. */
  predicate TasksOrdered<K(==,!new)>(b: Backlog<K>)
  {
    && (forall i, j :: 0 <= i < j < |b.tasks| ==> b.tasks[i].taskSeq < b.tasks[j].taskSeq)
    && (forall t :: t in b.tasks ==> t.taskSeq < b.nextTaskSeq)
  }

  /** No object is assigned twice. */
  predicate NoDoubleAssignment(assignments: seq<Assignment>)
  {
    forall i, j :: 0 <= i < j < |assignments| ==> assignments[i].objectSeq != assignments[j].objectSeq
  }

  /** Every assignment joins an existing task with an existing object of the same destination. */
  predicate AssignmentsWellFormed<K(==,!new)>(b: Backlog<K>)
  {
    forall x :: x in b.assignments ==>
      exists t, o :: t in b.tasks && o in b.objects && t.taskSeq == x.taskSeq && o.objectSeq == x.objectSeq && t.key == o.key
  }

  /** No task holds more objects than its destination's batch size. */
  predicate WithinCapacity<K(==,!new)>(windows: seq<Window<K>>, b: Backlog<K>)
  {
    forall t :: t in b.tasks ==> CountFor(b.assignments, t.taskSeq) <= BatchSize(windows, t.key)
  }

  predicate Valid<K(==,!new)>(windows: seq<Window<K>>, b: Backlog<K>)
  {
    && KeysDistinct(windows)
    && ObjectsOrdered(b)
    && UrlsUnique(b)
    && TasksOrdered(b)
    && NoDoubleAssignment(b.assignments)
    && AssignmentsWellFormed(b)
    && WithinCapacity(windows, b)
  }

  // ---------------------------------------------------------------------------------------
  // Counting and uniqueness helpers
  // ---------------------------------------------------------------------------------------

  lemma {:induction false} CountForAppend(a: seq<Assignment>, c: seq<Assignment>, s: nat)
    ensures CountFor(a + c, s) == CountFor(a, s) + CountFor(c, s)
  {
    if a == [] {
      assert a + c == c;
    } else {
      assert (a + c)[0] == a[0];
      assert (a + c)[1..] == a[1..] + c;
      CountForAppend(a[1..], c, s);
    }
  }

  /** A task has a positive count exactly when it appears among the mapped tasks. */
  lemma {:induction false} CountForPositive(a: seq<Assignment>, s: nat)
    ensures CountFor(a, s) > 0 <==> s in MappedTasks(a)
  {
    if a != [] {
      CountForPositive(a[1..], s);
      assert MappedTasks(a) == {a[0].taskSeq} + MappedTasks(a[1..]) by {
        assert a == [a[0]] + a[1..];
      }
    }
  }

  lemma {:induction false} CountAssignAll<K>(taskSeq: nat, objs: seq<ObjectRow<K>>, s: nat)
    ensures CountFor(AssignAll(taskSeq, objs), s) == if s == taskSeq then |objs| else 0
  {
    if objs != [] {
      CountAssignAll(taskSeq, objs[1..], s);
    }
  }

  lemma {:induction false} BatchSizeAbsent<K(!new)>(windows: seq<Window<K>>, k: K)
    requires forall w :: w in windows ==> w.key != k
    ensures BatchSize(windows, k) == 0
  {
    if windows != [] {
      BatchSizeAbsent(windows[1..], k);
    }
  }

  /** Two object rows with the same `object_seq` are the same row. */
  lemma ObjectSeqIdentifies<K(!new)>(b: Backlog<K>, o1: ObjectRow<K>, o2: ObjectRow<K>)
    requires ObjectsOrdered(b) && o1 in b.objects && o2 in b.objects && o1.objectSeq == o2.objectSeq
    ensures o1 == o2
  {
    var i :| 0 <= i < |b.objects| && b.objects[i] == o1;
    var j :| 0 <= j < |b.objects| && b.objects[j] == o2;
    if i < j || j < i { assert false; }
  }

  /** Two task rows with the same `task_seq` are the same row. */
  lemma TaskSeqIdentifies<K(!new)>(b: Backlog<K>, t1: TaskRow<K>, t2: TaskRow<K>)
    requires TasksOrdered(b) && t1 in b.tasks && t2 in b.tasks && t1.taskSeq == t2.taskSeq
    ensures t1 == t2
  {
    var i :| 0 <= i < |b.tasks| && b.tasks[i] == t1;
    var j :| 0 <= j < |b.tasks| && b.tasks[j] == t2;
    if i < j || j < i { assert false; }
  }

  lemma NoDoubleAppend(a: seq<Assignment>, c: seq<Assignment>)
    requires NoDoubleAssignment(a) && NoDoubleAssignment(c)
    requires AssignedObjects(a) !! AssignedObjects(c)
    ensures NoDoubleAssignment(a + c)
  {
    forall i, j | 0 <= i < j < |a + c|
      ensures (a + c)[i].objectSeq != (a + c)[j].objectSeq
    {
      if j < |a| {
        assert (a + c)[i] == a[i] && (a + c)[j] == a[j];
      } else if |a| <= i {
        assert (a + c)[i] == c[i - |a|] && (a + c)[j] == c[j - |a|];
      } else {
        assert (a + c)[i] == a[i] && (a + c)[j] == c[j - |a|];
        assert a[i].objectSeq in AssignedObjects(a);
        assert c[j - |a|].objectSeq in AssignedObjects(c);
      }
    }
  }

  // ---------------------------------------------------------------------------------------
  // Ordering: FIFO over tasks, ascending object_seq within a task
  // ---------------------------------------------------------------------------------------

  /** The unassigned objects of a destination come in ascending `object_seq`. */
  lemma {:induction false} PendingAscending<K(!new)>(objects: seq<ObjectRow<K>>, taken: set<nat>, k: K)
    requires Ascending(objects)
    ensures Ascending(Pending(objects, taken, k))
  {
    if objects != [] {
      assert Ascending(objects[1..]);
      PendingAscending(objects[1..], taken, k);
      if objects[0].key == k && objects[0].objectSeq !in taken {
        var rest := Pending(objects[1..], taken, k);
        forall o | o in rest ensures objects[0].objectSeq < o.objectSeq {
          var j :| 0 <= j < |objects[1..]| && objects[1..][j] == o;
          assert objects[j + 1] == o;
        }
        ConsAscending(objects[0], rest);
      }
    }
  }

  /** A row below every row of an ascending list keeps the list ascending when put in front. */
  lemma ConsAscending<K>(x: ObjectRow<K>, rest: seq<ObjectRow<K>>)
    requires Ascending(rest)
    requires forall o :: o in rest ==> x.objectSeq < o.objectSeq
    ensures Ascending([x] + rest)
  {
    forall i, j | 0 <= i < j < |[x] + rest| ensures ([x] + rest)[i].objectSeq < ([x] + rest)[j].objectSeq {
      assert ([x] + rest)[j] == rest[j - 1];
      if i > 0 {
        assert ([x] + rest)[i] == rest[i - 1];
      }
    }
  }

  /** The task chosen for the fill has the smallest `task_seq` among the empty tasks of its destination. */
  lemma {:induction false} OldestEmptyTaskIsOldest<K(!new)>(tasks: seq<TaskRow<K>>, mapped: set<nat>, k: K)
    requires forall i, j :: 0 <= i < j < |tasks| ==> tasks[i].taskSeq < tasks[j].taskSeq
    ensures var r := OldestEmptyTask(tasks, mapped, k);
      && (r.None? <==> forall t :: t in tasks && t.key == k ==> t.taskSeq in mapped)
      && (r.Some? ==> forall t :: t in tasks && t.key == k && t.taskSeq !in mapped ==> r.value.taskSeq <= t.taskSeq)
  {
    if tasks != [] {
      OldestEmptyTaskIsOldest(tasks[1..], mapped, k);
      forall t | t in tasks[1..] ensures tasks[0].taskSeq < t.taskSeq {
        var j :| 0 <= j < |tasks[1..]| && tasks[1..][j] == t;
        assert tasks[j + 1] == t;
      }
    }
  }

  // ---------------------------------------------------------------------------------------
  // Task cut
  // ---------------------------------------------------------------------------------------

  predicate Distinct<T(==)>(s: seq<T>)
  {
    forall i, j :: 0 <= i < j < |s| ==> s[i] != s[j]
  }

  lemma {:induction false} DueKeysDistinct<K(!new)>(windows: seq<Window<K>>, b: Backlog<K>, now: int)
    requires KeysDistinct(windows)
    ensures Distinct(DueKeys(windows, b, now))
  {
    if windows != [] {
      DueKeysDistinct(windows[1..], b, now);
      var rest := DueKeys(windows[1..], b, now);
      forall k | k in rest ensures k != windows[0].key {
        var w :| w in windows[1..] && w.key == k && TaskDue(w, b, now);
        var j :| 0 <= j < |windows[1..]| && windows[1..][j] == w;
        assert windows[j + 1] == w;
      }
      if TaskDue(windows[0], b, now) {
        var r := DueKeys(windows, b, now);
        assert r == [windows[0].key] + rest;
        forall i, j | 0 <= i < j < |r| ensures r[i] != r[j] {
          assert r[j] == rest[j - 1];
          if i > 0 {
            assert r[i] == rest[i - 1];
          } else {
            assert r[i] == windows[0].key;
            assert rest[j - 1] in rest;
          }
        }
      }
    }
  }

  /** The rows `insert_tasks` appends, as a slice of the new task table. */
  lemma InsertTasksAppends<K(!new)>(windows: seq<Window<K>>, b: Backlog<K>, now: int)
    ensures var b' := InsertTasks(windows, b, now);
      var keys := DueKeys(windows, b, now);
      && |b'.tasks| == |b.tasks| + |keys|
      && b'.tasks[..|b.tasks|] == b.tasks
      && forall i :: |b.tasks| <= i < |b'.tasks| ==>
           b'.tasks[i] == TaskRow(b.nextTaskSeq + (i - |b.tasks|), keys[i - |b.tasks|], now)
  {
    var keys := DueKeys(windows, b, now);
    var nt := NewTasks(keys, b.nextTaskSeq, now);
    var b' := InsertTasks(windows, b, now);
    assert b'.tasks == b.tasks + nt;
    forall i | |b.tasks| <= i < |b'.tasks|
      ensures b'.tasks[i] == TaskRow(b.nextTaskSeq + (i - |b.tasks|), keys[i - |b.tasks|], now)
    {
      assert b'.tasks[i] == nt[i - |b.tasks|];
    }
  }

  /**
    One call of `insert_tasks` appends one task per destination that is due, each with a fresh
    `task_seq` and the statement's time, never two for the same destination, and changes nothing
    else.
  */
  lemma InsertTasksCreates<K(!new)>(windows: seq<Window<K>>, b: Backlog<K>, now: int)
    requires KeysDistinct(windows)
    ensures var b' := InsertTasks(windows, b, now);
      && b'.objects == b.objects && b'.assignments == b.assignments && b'.nextObjectSeq == b.nextObjectSeq
      && b'.tasks[..|b.tasks|] == b.tasks
      && |b'.tasks| - |b.tasks| == |CreatedTaskSeqs(windows, b, now)| <= |windows|
      && (forall i :: |b.tasks| <= i < |b'.tasks| ==>
            b'.tasks[i].taskSeq == CreatedTaskSeqs(windows, b, now)[i - |b.tasks|] >= b.nextTaskSeq
            && b'.tasks[i].submitTime == now)
      && (forall i, j :: |b.tasks| <= i < j < |b'.tasks| ==> b'.tasks[i].key != b'.tasks[j].key)
  {
    DueKeysDistinct(windows, b, now);
    InsertTasksAppends(windows, b, now);
    var keys := DueKeys(windows, b, now);
    var b' := InsertTasks(windows, b, now);
    forall i, j | |b.tasks| <= i < j < |b'.tasks| ensures b'.tasks[i].key != b'.tasks[j].key {
      assert keys[i - |b.tasks|] != keys[j - |b.tasks|];
    }
  }

  /** A destination gets a new task exactly when it is among the due keys. */
  lemma NewTaskIffDue<K(!new)>(windows: seq<Window<K>>, b: Backlog<K>, now: int, k: K)
    ensures var b' := InsertTasks(windows, b, now);
      (exists i :: |b.tasks| <= i < |b'.tasks| && b'.tasks[i].key == k) <==> k in DueKeys(windows, b, now)
  {
    InsertTasksAppends(windows, b, now);
    var keys := DueKeys(windows, b, now);
    var b' := InsertTasks(windows, b, now);
    if k in keys {
      var m :| 0 <= m < |keys| && keys[m] == k;
      assert b'.tasks[|b.tasks| + m].key == k;
    }
  }

  /**
    A table row gets a new task exactly when it is enabled, has at least one unassigned object,
    and either has more unassigned objects than its batch size, or its latest task is more than
    `load_interval` seconds old, or it has no task at all.
  */
  lemma CutIff<K(!new)>(windows: seq<Window<K>>, b: Backlog<K>, now: int, w: Window<K>)
    requires KeysDistinct(windows) && w in windows
    ensures var b' := InsertTasks(windows, b, now);
      var pending := |Pending(b.objects, AssignedObjects(b.assignments), w.key)|;
      var latest := LatestSubmit(b.tasks, w.key);
      (exists i :: |b.tasks| <= i < |b'.tasks| && b'.tasks[i].key == w.key)
      <==>
      (&& !w.disabled
       && pending > 0
       && (|| pending > w.loadBatchSize
           || (latest.Some? && now - latest.value > w.loadInterval)
           || (forall t :: t in b.tasks ==> t.key != w.key)))
  {
    NewTaskIffDue(windows, b, now, w.key);
    if w.key in DueKeys(windows, b, now) {
      var w' :| w' in windows && w'.key == w.key && TaskDue(w', b, now);
      var p :| 0 <= p < |windows| && windows[p] == w;
      var q :| 0 <= q < |windows| && windows[q] == w';
      if p < q || q < p { assert false; }
    }
  }

  /** `insert_tasks` keeps the control-store invariant. */
  lemma InsertTasksValid<K(!new)>(windows: seq<Window<K>>, b: Backlog<K>, now: int)
    requires Valid(windows, b)
    ensures Valid(windows, InsertTasks(windows, b, now))
  {
    var b' := InsertTasks(windows, b, now);
    forall t | t in b'.tasks
      ensures CountFor(b'.assignments, t.taskSeq) <= BatchSize(windows, t.key)
    {
      if t !in b.tasks {
        CountForPositive(b.assignments, t.taskSeq);
      }
    }
    forall x | x in b'.assignments
      ensures exists t, o :: t in b'.tasks && o in b'.objects && t.taskSeq == x.taskSeq
                             && o.objectSeq == x.objectSeq && t.key == o.key
    {
      var t, o :| t in b.tasks && o in b.objects && t.taskSeq == x.taskSeq && o.objectSeq == x.objectSeq && t.key == o.key;
      assert t in b'.tasks;
    }
  }

  // ---------------------------------------------------------------------------------------
  // Object ingestion
  // ---------------------------------------------------------------------------------------

  /** After appending, the url is present, and only the new row was added. */
  lemma AppendObjectRecords<K(!new)>(b: Backlog<K>, key: K, url: string, size: int, now: int)
    ensures var b' := AppendObject(b, key, url, size, now);
      && HasUrl(b'.objects, url)
      && b'.objects[..|b.objects|] == b.objects
      && b'.objects[|b.objects|..] == [ObjectRow(b.nextObjectSeq, key, url, size, now)]
  {
    var b' := AppendObject(b, key, url, size, now);
    assert b'.objects[|b.objects|].url == url;
  }

  /** Appending an object whose url is new keeps the control-store invariant. */
  lemma AppendObjectValid<K(!new)>(windows: seq<Window<K>>, b: Backlog<K>, key: K, url: string, size: int, now: int)
    requires Valid(windows, b) && !HasUrl(b.objects, url)
    ensures Valid(windows, AppendObject(b, key, url, size, now))
  {
    var b' := AppendObject(b, key, url, size, now);
    forall i, j | 0 <= i < j < |b'.objects| ensures b'.objects[i].url != b'.objects[j].url {
      if j == |b.objects| {
        assert b.objects[i] in b.objects;
      }
    }
    forall x | x in b'.assignments
      ensures exists t, o :: t in b'.tasks && o in b'.objects && t.taskSeq == x.taskSeq
                             && o.objectSeq == x.objectSeq && t.key == o.key
    {
      var t, o :| t in b.tasks && o in b.objects && t.taskSeq == x.taskSeq && o.objectSeq == x.objectSeq && t.key == o.key;
      assert o in b'.objects;
    }
  }

  // ---------------------------------------------------------------------------------------
  // Task fill
  // ---------------------------------------------------------------------------------------

  /** Row `x` pairs an empty task of destination `k` with an unassigned object of `k`. */
  ghost predicate FromPending<K(!new)>(b: Backlog<K>, x: Assignment, k: K)
  {
    exists t, o :: && t in b.tasks && o in b.objects && t.key == k && o.key == k
                   && t.taskSeq == x.taskSeq && o.objectSeq == x.objectSeq
                   && t.taskSeq !in MappedTasks(b.assignments) && o.objectSeq !in AssignedObjects(b.assignments)
  }

  lemma FillForFacts<K(!new)>(w: Window<K>, b: Backlog<K>)
    requires ObjectsOrdered(b)
    ensures forall x :: x in FillFor(w, b) ==> FromPending(b, x, w.key)
    ensures NoDoubleAssignment(FillFor(w, b))
    ensures forall s: nat :: CountFor(FillFor(w, b), s) <= w.loadBatchSize
    ensures forall s: nat :: CountFor(FillFor(w, b), s) > 0 ==>
      exists t :: t in b.tasks && t.key == w.key && t.taskSeq == s
  {
    match OldestEmptyTask(b.tasks, MappedTasks(b.assignments), w.key)
    case None =>
    case Some(t) =>
      var pend := Pending(b.objects, AssignedObjects(b.assignments), w.key);
      var objs := Take(pend, w.loadBatchSize);
      PendingAscending(b.objects, AssignedObjects(b.assignments), w.key);
      var rows := AssignAll(t.taskSeq, objs);
      forall x | x in rows ensures FromPending(b, x, w.key) {
        var i :| 0 <= i < |rows| && rows[i] == x;
        assert objs[i] == pend[i] && pend[i] in pend;
      }
      forall s: nat ensures CountFor(rows, s) <= w.loadBatchSize && (CountFor(rows, s) > 0 ==> s == t.taskSeq) {
        CountAssignAll(t.taskSeq, objs, s);
      }
      forall i, j | 0 <= i < j < |rows| ensures rows[i].objectSeq != rows[j].objectSeq {
        assert objs[i] == pend[i] && objs[j] == pend[j];
      }
  }

  lemma {:induction false} FillRowsMember<K(!new)>(ws: seq<Window<K>>, b: Backlog<K>, x: Assignment)
    ensures x in FillRows(ws, b) <==> exists w :: w in ws && x in FillFor(w, b)
  {
    if ws != [] {
      FillRowsMember(ws[1..], b, x);
      assert FillRows(ws, b) == FillFor(ws[0], b) + FillRows(ws[1..], b);
      if exists w :: w in ws && x in FillFor(w, b) {
        var w :| w in ws && x in FillFor(w, b);
        if w != ws[0] {
          var j :| 0 <= j < |ws| && ws[j] == w;
          assert ws[1..][j - 1] == w;
        }
      }
    }
  }

  lemma KeysDistinctTail<K(!new)>(ws: seq<Window<K>>)
    requires KeysDistinct(ws) && ws != []
    ensures KeysDistinct(ws[1..])
    ensures forall w :: w in ws[1..] ==> w.key != ws[0].key
  {
    forall w | w in ws[1..] ensures w.key != ws[0].key {
      var j :| 0 <= j < |ws[1..]| && ws[1..][j] == w;
      assert ws[j + 1] == w;
    }
  }

  lemma {:induction false} FillRowsFacts<K(!new)>(ws: seq<Window<K>>, b: Backlog<K>)
    requires KeysDistinct(ws) && ObjectsOrdered(b) && TasksOrdered(b)
    ensures forall x :: x in FillRows(ws, b) ==> exists w :: w in ws && FromPending(b, x, w.key)
    ensures NoDoubleAssignment(FillRows(ws, b))
    ensures forall t :: t in b.tasks ==> CountFor(FillRows(ws, b), t.taskSeq) <= BatchSize(ws, t.key)
  {
    if ws != [] {
      var w0, rest := ws[0], ws[1..];
      KeysDistinctTail(ws);
      FillRowsFacts(rest, b);
      FillForFacts(w0, b);
      var head, tail := FillFor(w0, b), FillRows(rest, b);
      assert FillRows(ws, b) == head + tail;
      FillRowsOrigin(ws, b, head, tail);
      FillRowsDisjoint(w0, rest, b, head, tail);
      NoDoubleAppend(head, tail);
      FillRowsCount(ws, b, head, tail);
    }
  }

  /** One step of `FillRowsFacts`: every row comes from the pending objects of some window. */
  lemma FillRowsOrigin<K(!new)>(ws: seq<Window<K>>, b: Backlog<K>, head: seq<Assignment>, tail: seq<Assignment>)
    requires ws != []
    requires forall x :: x in head ==> FromPending(b, x, ws[0].key)
    requires forall x :: x in tail ==> exists w :: w in ws[1..] && FromPending(b, x, w.key)
    ensures forall x :: x in head + tail ==> exists w :: w in ws && FromPending(b, x, w.key)
  {
    forall x | x in head + tail ensures exists w :: w in ws && FromPending(b, x, w.key) {
      if x in tail {
        var w :| w in ws[1..] && FromPending(b, x, w.key);
        assert w in ws;
      } else {
        assert ws[0] in ws;
      }
    }
  }

  /** One step of `FillRowsFacts`: the first window's rows and the others' rows share no object. */
  lemma FillRowsDisjoint<K(!new)>(w0: Window<K>, rest: seq<Window<K>>, b: Backlog<K>, head: seq<Assignment>, tail: seq<Assignment>)
    requires ObjectsOrdered(b)
    requires forall w :: w in rest ==> w.key != w0.key
    requires forall x :: x in head ==> FromPending(b, x, w0.key)
    requires forall x :: x in tail ==> exists w :: w in rest && FromPending(b, x, w.key)
    ensures forall n :: n in AssignedObjects(head) ==> n !in AssignedObjects(tail)
  {
    forall n | n in AssignedObjects(head) ensures n !in AssignedObjects(tail) {
      var x :| x in head && x.objectSeq == n;
      if n in AssignedObjects(tail) {
        var y :| y in tail && y.objectSeq == n;
        var w :| w in rest && FromPending(b, y, w.key);
        var t1, o1 :| t1 in b.tasks && o1 in b.objects && o1.key == w0.key && o1.objectSeq == x.objectSeq;
        var t2, o2 :| t2 in b.tasks && o2 in b.objects && o2.key == w.key && o2.objectSeq == y.objectSeq;
        ObjectSeqIdentifies(b, o1, o2);
        assert false;
      }
    }
  }

  /** One step of `FillRowsFacts`: no task receives more rows than its window's batch size. */
  lemma FillRowsCount<K(!new)>(ws: seq<Window<K>>, b: Backlog<K>, head: seq<Assignment>, tail: seq<Assignment>)
    requires ws != [] && TasksOrdered(b)
    requires forall w :: w in ws[1..] ==> w.key != ws[0].key
    requires forall s: nat :: CountFor(head, s) <= ws[0].loadBatchSize
    requires forall s: nat :: CountFor(head, s) > 0 ==> exists t :: t in b.tasks && t.key == ws[0].key && t.taskSeq == s
    requires forall t :: t in b.tasks ==> CountFor(tail, t.taskSeq) <= BatchSize(ws[1..], t.key)
    ensures forall t :: t in b.tasks ==> CountFor(head + tail, t.taskSeq) <= BatchSize(ws, t.key)
  {
    var w0, rest := ws[0], ws[1..];
    forall t | t in b.tasks ensures CountFor(head + tail, t.taskSeq) <= BatchSize(ws, t.key) {
      CountForAppend(head, tail, t.taskSeq);
      if w0.key == t.key {
        BatchSizeAbsent(rest, t.key);
      } else if CountFor(head, t.taskSeq) > 0 {
        var t' :| t' in b.tasks && t'.key == w0.key && t'.taskSeq == t.taskSeq;
        TaskSeqIdentifies(b, t, t');
        assert false;
      }
    }
  }

  /** `insert_task_objects` keeps the control-store invariant: no object is assigned twice and no task exceeds its batch size. */
  lemma FillValid<K(!new)>(windows: seq<Window<K>>, b: Backlog<K>)
    requires Valid(windows, b)
    ensures Valid(windows, Fill(windows, b))
  {
    var rows := FillRows(windows, b);
    var b' := Fill(windows, b);
    FillRowsFacts(windows, b);
    assert AssignedObjects(b.assignments) !! AssignedObjects(rows);
    NoDoubleAppend(b.assignments, rows);
    forall x | x in b'.assignments
      ensures exists t, o :: t in b'.tasks && o in b'.objects && t.taskSeq == x.taskSeq
                             && o.objectSeq == x.objectSeq && t.key == o.key
    {
      if x in rows {
        var w :| w in windows && FromPending(b, x, w.key);
      }
    }
    forall t | t in b.tasks ensures CountFor(b'.assignments, t.taskSeq) <= BatchSize(windows, t.key) {
      CountForAppend(b.assignments, rows, t.taskSeq);
      if CountFor(rows, t.taskSeq) > 0 {
        CountForPositive(rows, t.taskSeq);
        CountForPositive(b.assignments, t.taskSeq);
        var y :| y in rows && y.taskSeq == t.taskSeq;
        var w :| w in windows && FromPending(b, y, w.key);
      }
    }
  }

  /** The cut-and-fill transaction keeps the control-store invariant. */
  lemma CutAndFillValid<K(!new)>(windows: seq<Window<K>>, b: Backlog<K>, now: int)
    requires Valid(windows, b)
    ensures Valid(windows, CutAndFill(windows, b, now))
  {
    InsertTasksValid(windows, b, now);
    FillValid(windows, InsertTasks(windows, b, now));
  }

  lemma KeyIdentifiesWindow<K(!new)>(ws: seq<Window<K>>, w1: Window<K>, w2: Window<K>)
    requires KeysDistinct(ws) && w1 in ws && w2 in ws && w1.key == w2.key
    ensures w1 == w2
  {
    var p :| 0 <= p < |ws| && ws[p] == w1;
    var q :| 0 <= q < |ws| && ws[q] == w2;
    if p < q || q < p { assert false; }
  }

  /** Every row the fill adds goes to the oldest (smallest `task_seq`) empty task of its destination. */
  lemma FillOnlyOldest<K(!new)>(windows: seq<Window<K>>, b: Backlog<K>, x: Assignment)
    requires Valid(windows, b) && x in FillRows(windows, b)
    ensures exists t :: && t in b.tasks && t.taskSeq == x.taskSeq && t.taskSeq !in MappedTasks(b.assignments)
                        && forall t' :: t' in b.tasks && t'.key == t.key && t'.taskSeq !in MappedTasks(b.assignments)
                                        ==> t.taskSeq <= t'.taskSeq
  {
    FillRowsMember(windows, b, x);
    var w :| w in windows && x in FillFor(w, b);
    OldestEmptyTaskIsOldest(b.tasks, MappedTasks(b.assignments), w.key);
    match OldestEmptyTask(b.tasks, MappedTasks(b.assignments), w.key)
    case Some(t) =>
      var objs := Take(Pending(b.objects, AssignedObjects(b.assignments), w.key), w.loadBatchSize);
      var i :| 0 <= i < |AssignAll(t.taskSeq, objs)| && AssignAll(t.taskSeq, objs)[i] == x;
      assert x.taskSeq == t.taskSeq;
  }

  /** A row of `FillFor(w, b)` carrying the `i`-th unassigned object of the destination exists only for `i < load_batch_size`. */
  lemma InFillForIsEarly<K(!new)>(w: Window<K>, b: Backlog<K>, i: nat, x: Assignment)
    requires Ascending(Pending(b.objects, AssignedObjects(b.assignments), w.key))
    requires i < |Pending(b.objects, AssignedObjects(b.assignments), w.key)|
    requires x in FillFor(w, b) && x.objectSeq == Pending(b.objects, AssignedObjects(b.assignments), w.key)[i].objectSeq
    ensures OldestEmptyTask(b.tasks, MappedTasks(b.assignments), w.key).Some? && i < w.loadBatchSize
  {
    var pend := Pending(b.objects, AssignedObjects(b.assignments), w.key);
    match OldestEmptyTask(b.tasks, MappedTasks(b.assignments), w.key)
    case Some(t) =>
      var objs := Take(pend, w.loadBatchSize);
      var m :| 0 <= m < |AssignAll(t.taskSeq, objs)| && AssignAll(t.taskSeq, objs)[m] == x;
      assert objs[m] == pend[m];
      if m < i || i < m { assert false; }
  }

  /** An unassigned object the fill assigns is among the first `load_batch_size` of its destination. */
  lemma FilledObjectIsEarly<K(!new)>(ws: seq<Window<K>>, b: Backlog<K>, w: Window<K>, i: nat)
    requires KeysDistinct(ws) && ObjectsOrdered(b) && w in ws
    requires i < |Pending(b.objects, AssignedObjects(b.assignments), w.key)|
    requires Pending(b.objects, AssignedObjects(b.assignments), w.key)[i].objectSeq in AssignedObjects(Fill(ws, b).assignments)
    ensures OldestEmptyTask(b.tasks, MappedTasks(b.assignments), w.key).Some? && i < w.loadBatchSize
  {
    var pend := Pending(b.objects, AssignedObjects(b.assignments), w.key);
    PendingAscending(b.objects, AssignedObjects(b.assignments), w.key);
    var x :| x in Fill(ws, b).assignments && x.objectSeq == pend[i].objectSeq;
    assert pend[i] in pend;
    assert x !in b.assignments;
    FillRowsMember(ws, b, x);
    var w' :| w' in ws && x in FillFor(w', b);
    FillForFacts(w', b);
    assert FromPending(b, x, w'.key);
    var t1, o1 :| && t1 in b.tasks && o1 in b.objects && o1.key == w'.key && o1.objectSeq == x.objectSeq;
    ObjectSeqIdentifies(b, o1, pend[i]);
    KeyIdentifiesWindow(ws, w, w');
    InFillForIsEarly(w, b, i, x);
  }

  /** The first `load_batch_size` unassigned objects of a destination go to its oldest empty task. */
  lemma EarlyObjectIsFilled<K(!new)>(ws: seq<Window<K>>, b: Backlog<K>, w: Window<K>, i: nat)
    requires w in ws
    requires OldestEmptyTask(b.tasks, MappedTasks(b.assignments), w.key).Some?
    requires i < |Pending(b.objects, AssignedObjects(b.assignments), w.key)| && i < w.loadBatchSize
    ensures Assignment(OldestEmptyTask(b.tasks, MappedTasks(b.assignments), w.key).value.taskSeq,
                       Pending(b.objects, AssignedObjects(b.assignments), w.key)[i].objectSeq)
            in Fill(ws, b).assignments
  {
    var pend := Pending(b.objects, AssignedObjects(b.assignments), w.key);
    var t := OldestEmptyTask(b.tasks, MappedTasks(b.assignments), w.key).value;
    var x := Assignment(t.taskSeq, pend[i].objectSeq);
    assert AssignAll(t.taskSeq, Take(pend, w.loadBatchSize))[i] == x;
    FillRowsMember(ws, b, x);
  }

  /**
    The fill gives the oldest empty task of a destination the first `load_batch_size` of its
    unassigned objects, which are in ascending `object_seq`; every later unassigned object of the
    destination stays unassigned, and so does every one when the destination has no empty task.
  */
  lemma FillTakesOldestObjects<K(!new)>(ws: seq<Window<K>>, b: Backlog<K>, w: Window<K>)
    requires Valid(ws, b) && w in ws
    ensures var pend := Pending(b.objects, AssignedObjects(b.assignments), w.key);
      var oldest := OldestEmptyTask(b.tasks, MappedTasks(b.assignments), w.key);
      var after := Fill(ws, b).assignments;
      && Ascending(pend)
      && (forall i :: 0 <= i < |pend| ==>
            (pend[i].objectSeq in AssignedObjects(after) <==> oldest.Some? && i < w.loadBatchSize))
      && (oldest.Some? ==> forall i :: 0 <= i < |pend| && i < w.loadBatchSize ==>
            Assignment(oldest.value.taskSeq, pend[i].objectSeq) in after)
  {
    var pend := Pending(b.objects, AssignedObjects(b.assignments), w.key);
    var oldest := OldestEmptyTask(b.tasks, MappedTasks(b.assignments), w.key);
    var after := Fill(ws, b).assignments;
    PendingAscending(b.objects, AssignedObjects(b.assignments), w.key);
    forall i | 0 <= i < |pend| && oldest.Some? && i < w.loadBatchSize
      ensures Assignment(oldest.value.taskSeq, pend[i].objectSeq) in after
    {
      EarlyObjectIsFilled(ws, b, w, i);
    }
    forall i | 0 <= i < |pend|
      ensures pend[i].objectSeq in AssignedObjects(after) <==> oldest.Some? && i < w.loadBatchSize
    {
      if pend[i].objectSeq in AssignedObjects(after) {
        FilledObjectIsEarly(ws, b, w, i);
      }
    }
  }

  /**
    The whole transaction, for one destination: the fill works on the state after the cut, so
    a destination that has just been given a task always has an empty task to fill, and its
    first `load_batch_size` unassigned objects (in ascending `object_seq`) go to its oldest
    empty task while the rest stay unassigned.  No object row is added or removed.
  */
  lemma CutAndFillSpec<K(!new)>(windows: seq<Window<K>>, b: Backlog<K>, now: int, w: Window<K>)
    requires Valid(windows, b) && w in windows
    ensures var cut := InsertTasks(windows, b, now);
      var pend := Pending(b.objects, AssignedObjects(b.assignments), w.key);
      var oldest := OldestEmptyTask(cut.tasks, MappedTasks(b.assignments), w.key);
      var after := CutAndFill(windows, b, now);
      && after.objects == b.objects
      && Ascending(pend)
      && ((exists i :: |b.tasks| <= i < |cut.tasks| && cut.tasks[i].key == w.key) ==> oldest.Some?)
      && (forall i :: 0 <= i < |pend| ==>
            (pend[i].objectSeq in AssignedObjects(after.assignments) <==> oldest.Some? && i < w.loadBatchSize))
      && (oldest.Some? ==> forall i :: 0 <= i < |pend| && i < w.loadBatchSize ==>
            Assignment(oldest.value.taskSeq, pend[i].objectSeq) in after.assignments)
  {
    var cut := InsertTasks(windows, b, now);
    InsertTasksCreates(windows, b, now);
    InsertTasksValid(windows, b, now);
    FillTakesOldestObjects(windows, cut, w);
    if exists i :: |b.tasks| <= i < |cut.tasks| && cut.tasks[i].key == w.key {
      var i :| |b.tasks| <= i < |cut.tasks| && cut.tasks[i].key == w.key;
      NewTaskIsEmpty(windows, b, now, i);
      assert cut.tasks[i] in cut.tasks;
    }
  }

  /** A task just cut has no object yet: every assigned task is older than the cut. */
  lemma NewTaskIsEmpty<K(!new)>(windows: seq<Window<K>>, b: Backlog<K>, now: int, i: nat)
    requires Valid(windows, b)
    requires |b.tasks| <= i < |InsertTasks(windows, b, now).tasks|
    ensures InsertTasks(windows, b, now).tasks[i].taskSeq !in MappedTasks(b.assignments)
  {
    InsertTasksCreates(windows, b, now);
  }
}
