/**
  The first-generation dispatcher: it files the objects announced by creation events, cuts and
  fills tasks on every tick of its own dispatch timer, and hands the created tasks to the task
  queue.  Every call it makes on the event queue, the task queue and the object store is
  recorded in one ordered list, so the order of those calls can be stated.
*/
module Dispatchers {
  import opened Wrappers
  import opened Seqs
  import opened Windowing
  import opened ObjectStores

  /** An event read from the event queue, with the queue's message id. */
  datatype Event =
    | ShutdownEvent(messageId: string)
    | DataEvent(messageId: string, created: bool, obj: LoadableObject)
    | DispatchEvent(messageId: string)

  /** A call the dispatcher makes on the event queue, the task queue or the object store. */
  datatype Call =
    | InitiateTerminate
    | DeleteMessage(messageId: string)
    | StoreObject(url: string)
    | AssignObjects
    | PutTask(taskSeq: nat)
    | SendDispatch(delaySeconds: int, messageId: string)

  // ---------------------------------------------------------------------------------------
  // The dispatch timer, read off the recorded calls
  // ---------------------------------------------------------------------------------------

  /** The message ids of the dispatch events sent, in sending order. */
  function TickIds(calls: seq<Call>): (r: seq<string>)
    ensures |r| <= |calls|
  {
    if calls == [] then []
    else
      var last := calls[|calls| - 1];
      TickIds(calls[..|calls| - 1]) + (if last.SendDispatch? then [last.messageId] else [])
  }

  /** The message id of the dispatch event sent last, if any. */
  function LastTick(calls: seq<Call>): Option<string>
  {
    var ids := TickIds(calls);
    if ids == [] then None else Some(ids[|ids| - 1])
  }

  /** The ticks of two call lists, one after the other, are the ticks of each in turn. */
  lemma {:induction false} TickIdsAppend(a: seq<Call>, b: seq<Call>)
    ensures TickIds(a + b) == TickIds(a) + TickIds(b)
  {
    if b != [] {
      var b', x := b[..|b| - 1], b[|b| - 1];
      assert (a + b)[..|a + b| - 1] == a + b';
      assert (a + b)[|a + b| - 1] == x;
      TickIdsAppend(a, b');
      assert TickIds(a + b) == TickIds(a + b') + (if x.SendDispatch? then [x.messageId] else []);
    } else {
      assert a + b == a;
    }
  }

  /** A call list without a `send_message` of a tick has no ticks. */
  lemma {:induction false} NoTicks(calls: seq<Call>)
    requires forall i :: 0 <= i < |calls| ==> !calls[i].SendDispatch?
    ensures TickIds(calls) == []
  {
    if calls != [] {
      NoTicks(calls[..|calls| - 1]);
    }
  }

  /** A call list with a tick in it has at least one tick. */
  lemma {:induction false} SomeTick(calls: seq<Call>, k: nat)
    requires k < |calls| && calls[k].SendDispatch?
    ensures TickIds(calls) != []
  {
    if k < |calls| - 1 {
      SomeTick(calls[..|calls| - 1], k);
    }
  }

  /** Calls other than ticks leave the last tick where it was. */
  lemma AppendNoTicks(a: seq<Call>, b: seq<Call>)
    requires forall i :: 0 <= i < |b| ==> !b[i].SendDispatch?
    ensures LastTick(a + b) == LastTick(a)
  {
    TickIdsAppend(a, b);
    NoTicks(b);
  }

  /**
    With message ids unique, a tick sent before some later tick is never the last one: a tick
    that is redelivered after it was handled (handling it sent the next one) is stale.
  */
  lemma HandledTickIsStale(calls: seq<Call>, k: nat, k': nat)
    requires k < k' < |calls| && calls[k].SendDispatch? && calls[k'].SendDispatch?
    requires Distinct(TickIds(calls))
    ensures LastTick(calls) != Some(calls[k].messageId)
  {
    var pre, post := calls[..k], calls[k + 1..];
    SplitAt(calls, k);
    TickIdsAppend(pre + [calls[k]], post);
    TickIdsAppend(pre, [calls[k]]);
    assert [calls[k]][..0] == [];
    SomeTick(post, k' - k - 1);
    LaterIsDifferent(TickIds(pre), calls[k].messageId, TickIds(post));
  }

  /** In a sequence without repetitions, an element followed by others is not the last. */
  lemma LaterIsDifferent<T>(a: seq<T>, x: T, b: seq<T>)
    requires b != [] && Distinct(a + [x] + b)
    ensures (a + [x] + b)[|a + [x] + b| - 1] != x
  {
    assert (a + [x] + b)[|a|] == x;
  }

  // ---------------------------------------------------------------------------------------
  // Call lists of the loops
  // ---------------------------------------------------------------------------------------

  /** One `put` on the task queue per created task, in order. */
  function TaskPuts(taskSeqs: seq<nat>): (r: seq<Call>)
    ensures |r| == |taskSeqs|
    ensures forall i :: 0 <= i < |r| ==> r[i] == PutTask(taskSeqs[i])
  {
    if taskSeqs == [] then []
    else TaskPuts(taskSeqs[..|taskSeqs| - 1]) + [PutTask(taskSeqs[|taskSeqs| - 1])]
  }

  /** One `delete_message` per event, in order. */
  function Deletions(events: seq<Event>): (r: seq<Call>)
    ensures |r| == |events|
    ensures forall i :: 0 <= i < |r| ==> r[i] == DeleteMessage(events[i].messageId)
  {
    if events == [] then []
    else Deletions(events[..|events| - 1]) + [DeleteMessage(events[|events| - 1].messageId)]
  }

  /** The tasks `assign_objects_to_tasks` answers when run at time `now`. */
  function CreatedTasks(db: Db, now: int): seq<nat>
  {
    CreatedTaskSeqs(Windows(db), db.backlog, now)
  }

  /** The store after `assign_objects_to_tasks` at time `now`. */
  function Assigned(db: Db, now: int): Db
  {
    db.(backlog := CutAndFill(Windows(db), db.backlog, now))
  }

  // ---------------------------------------------------------------------------------------
  // The dispatcher
  // ---------------------------------------------------------------------------------------

  class Dispatcher {
    const store: ObjectStore
    /** Seconds the event queue delays each tick. */
    const dispatchInterval: int
    /** The message id of the tick of the current timer (`nil` before the first). */
    var dispatchMessageId: Option<string>
    /** The event queue's terminate request, which ends its handler loop. */
    var terminateRequested: bool
    /** The calls made so far, in order. */
    var calls: seq<Call>

    /** The current timer is always the tick sent last. */
    ghost predicate TimerValid()
      reads this
    {
      dispatchMessageId == LastTick(calls)
    }

    constructor(store: ObjectStore, dispatchInterval: int)
      ensures this.store == store && this.dispatchInterval == dispatchInterval
      ensures dispatchMessageId == None && !terminateRequested && calls == []
      ensures TimerValid()
    {
      this.store := store;
      this.dispatchInterval := dispatchInterval;
      dispatchMessageId := None;
      terminateRequested := false;
      calls := [];
    }

    /** `handle_shutdown`: request termination, then delete the shutdown event. */
    method HandleShutdown(e: Event)
      requires e.ShutdownEvent? && TimerValid()
      modifies this
      ensures TimerValid()
      ensures terminateRequested && dispatchMessageId == old(dispatchMessageId)
      ensures calls == old(calls) + [InitiateTerminate, DeleteMessage(e.messageId)]
    {
      AppendNoTicks(calls, [InitiateTerminate, DeleteMessage(e.messageId)]);
      terminateRequested := true;
      calls := calls + [InitiateTerminate, DeleteMessage(e.messageId)];
    }

    /**
      `handle_data`: an event that is not a creation is only deleted; a creation is stored and
      deleted after `store` returns.  `storeFails` says whether `store` raises, in which case
      nothing is stored and the event is left on the queue.
    */
    method HandleData(e: Event, now: int, storeFails: bool) returns (raised: bool)
      requires e.DataEvent? && TimerValid() && Consistent(store.db)
      modifies this, store
      ensures TimerValid() && Consistent(store.db)
      ensures dispatchMessageId == old(dispatchMessageId) && terminateRequested == old(terminateRequested)
      ensures raised == (e.created && storeFails)
      ensures !e.created ==> store.db == old(store.db) && calls == old(calls) + [DeleteMessage(e.messageId)]
      ensures e.created ==>
        && store.db == (if storeFails then old(store.db) else InsertObject(old(store.db), e.obj, now))
        && calls == old(calls) + [StoreObject(e.obj.url)] + (if storeFails then [] else [DeleteMessage(e.messageId)])
    {
      raised := false;
      if !e.created {
        DeleteEvent(e.messageId);
        return;
      }
      var c0 := calls;
      calls := calls + [StoreObject(e.obj.url)];
      if storeFails {
        AppendNoTicks(c0, [StoreObject(e.obj.url)]);
        raised := true;
        return;
      }
      AppendNoTicks(c0, [StoreObject(e.obj.url)]);
      store.Store(e.obj, now);
      DeleteEvent(e.messageId);
    }

    /**
      `handle_dispatch`: a tick of the current timer cuts and fills tasks, puts every created
      task on the task queue in order and restarts the timer with a tick whose message id the
      queue answers as `newId`; any other tick is stale.  Either way the tick is deleted last.
    */
    method HandleDispatch(e: Event, now: int, newId: string)
      requires e.DispatchEvent? && TimerValid() && Consistent(store.db)
      modifies this, store
      ensures TimerValid() && Consistent(store.db)
      ensures terminateRequested == old(terminateRequested)
      ensures old(dispatchMessageId) == Some(e.messageId) ==>
        && store.db == Assigned(old(store.db), now)
        && dispatchMessageId == Some(newId)
        && calls == old(calls) + [AssignObjects] + TaskPuts(CreatedTasks(old(store.db), now))
                      + [SendDispatch(dispatchInterval, newId)] + [DeleteMessage(e.messageId)]
      ensures old(dispatchMessageId) != Some(e.messageId) ==>
        && store.db == old(store.db)
        && dispatchMessageId == old(dispatchMessageId)
        && calls == old(calls) + [DeleteMessage(e.messageId)]
    {
      if dispatchMessageId == Some(e.messageId) {
        Dispatch(now, newId);
        DeleteEvent(e.messageId);
      } else {
        DeleteEvent(e.messageId);
      }
    }

    /** `delete_message` on the event queue. */
    method DeleteEvent(messageId: string)
      requires TimerValid()
      modifies this
      ensures TimerValid()
      ensures dispatchMessageId == old(dispatchMessageId) && terminateRequested == old(terminateRequested)
      ensures calls == old(calls) + [DeleteMessage(messageId)]
    {
      AppendNoTicks(calls, [DeleteMessage(messageId)]);
      calls := calls + [DeleteMessage(messageId)];
    }

    /** The body of `handle_dispatch` for a current tick: assign, put the tasks, restart the timer. */
    method Dispatch(now: int, newId: string)
      requires Consistent(store.db)
      modifies this, store
      ensures TimerValid() && Consistent(store.db)
      ensures terminateRequested == old(terminateRequested)
      ensures store.db == Assigned(old(store.db), now)
      ensures dispatchMessageId == Some(newId)
      ensures calls == old(calls) + [AssignObjects] + TaskPuts(CreatedTasks(old(store.db), now))
                         + [SendDispatch(dispatchInterval, newId)]
    {
      calls := calls + [AssignObjects];
      var tasks := store.AssignObjectsToTasks(now);
      PutTasks(tasks);
      SetDispatchTimer(newId);
    }

    /** The `tasks.each` loop of `handle_dispatch`: put every task on the task queue, in order. */
    method PutTasks(tasks: seq<nat>)
      modifies this
      ensures dispatchMessageId == old(dispatchMessageId) && terminateRequested == old(terminateRequested)
      ensures calls == old(calls) + TaskPuts(tasks)
    {
      var i := 0;
      while i < |tasks|
        invariant 0 <= i <= |tasks|
        invariant calls == old(calls) + TaskPuts(tasks[..i])
        invariant dispatchMessageId == old(dispatchMessageId) && terminateRequested == old(terminateRequested)
      {
        assert tasks[..i + 1][..i] == tasks[..i];
        calls := calls + [PutTask(tasks[i])];
        i := i + 1;
      }
      assert tasks[..i] == tasks;
    }

    /** `set_dispatch_timer`: send a delayed tick and remember its message id. */
    method SetDispatchTimer(newId: string)
      modifies this
      ensures TimerValid()
      ensures dispatchMessageId == Some(newId) && terminateRequested == old(terminateRequested)
      ensures calls == old(calls) + [SendDispatch(dispatchInterval, newId)]
    {
      var tick := SendDispatch(dispatchInterval, newId);
      TickIdsAppend(calls, [tick]);
      assert [tick][..0] == [];
      calls := calls + [tick];
      dispatchMessageId := Some(newId);
    }

    /** `delete_events`: delete every event once, in order. */
    method DeleteEvents(events: seq<Event>)
      requires TimerValid()
      modifies this
      ensures TimerValid()
      ensures dispatchMessageId == old(dispatchMessageId) && terminateRequested == old(terminateRequested)
      ensures calls == old(calls) + Deletions(events)
    {
      var i := 0;
      while i < |events|
        invariant 0 <= i <= |events|
        invariant calls == old(calls) + Deletions(events[..i])
        invariant dispatchMessageId == old(dispatchMessageId) && terminateRequested == old(terminateRequested)
      {
        assert events[..i + 1][..i] == events[..i];
        calls := calls + [DeleteMessage(events[i].messageId)];
        i := i + 1;
      }
      assert events[..i] == events;
      AppendNoTicks(old(calls), Deletions(events));
    }
  }
}
