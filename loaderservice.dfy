/**
  The loader service: a poll loop that waits, asks the control store for a task, executes the
  task it gets, and backs off exponentially while there is none, until a terminate request has
  been seen at the top of an iteration.
*/
module LoaderServices {
  import opened Wrappers
  import opened Seqs
  import opened ControlStores
  import opened LoadTasks

  // ---------------------------------------------------------------------------------------
  // Back-off
  // ---------------------------------------------------------------------------------------

  function Pow2(n: nat): (r: nat)
    ensures r >= 1
  {
    if n == 0 then 1 else 2 * Pow2(n - 1)
  }

  /** A larger exponent gives a strictly larger power. */
  lemma {:induction false} Pow2Increasing(a: nat, b: nat)
    requires a < b
    ensures Pow2(a) < Pow2(b)
  {
    if a < b - 1 {
      Pow2Increasing(a, b - 1);
    }
  }

  /** `wait`: the seconds slept after `nZero` polls in a row found no task. */
  function WaitSeconds(nZero: nat): nat
  {
    Pow2(Min(nZero, 6))
  }

  /**
    The sleep is one second when the last poll found a task, never more than 64 seconds, and
    exactly 64 seconds from the sixth empty poll in a row on.
  */
  lemma WaitBounds(nZero: nat)
    ensures 1 <= WaitSeconds(nZero) <= 64
    ensures WaitSeconds(0) == 1
    ensures WaitSeconds(nZero) == 64 <==> nZero >= 6
  {
    if nZero < 6 {
      Pow2Increasing(nZero, 6);
    }
  }

  /** More empty polls in a row never shorten the sleep. */
  lemma WaitMonotone(a: nat, b: nat)
    requires a <= b
    ensures WaitSeconds(a) <= WaitSeconds(b)
  {
    if Min(a, 6) < Min(b, 6) {
      Pow2Increasing(Min(a, 6), Min(b, 6));
    }
  }

  // ---------------------------------------------------------------------------------------
  // The empty-poll counter
  // ---------------------------------------------------------------------------------------

  /** `n_zero` after the polls `polls`: the number of empty polls since the last task found. */
  function NZeros(polls: seq<Option<LoadTask>>): (r: nat)
    ensures r <= |polls|
  {
    if polls == [] || polls[|polls| - 1].Some? then 0 else NZeros(polls[..|polls| - 1]) + 1
  }

  /** The counter is the length of the longest run of empty polls at the end. */
  lemma {:induction false} NZerosIsTrailingRun(polls: seq<Option<LoadTask>>)
    ensures forall i :: |polls| - NZeros(polls) <= i < |polls| ==> polls[i].None?
    ensures NZeros(polls) < |polls| ==> polls[|polls| - NZeros(polls) - 1].Some?
  {
    if polls != [] && polls[|polls| - 1].None? {
      NZerosIsTrailingRun(polls[..|polls| - 1]);
    }
  }

  /** A found task resets the counter; an empty poll increments it. */
  lemma NZerosStep(polls: seq<Option<LoadTask>>, task: Option<LoadTask>)
    ensures NZeros(polls + [task]) == if task.Some? then 0 else NZeros(polls) + 1
  {
    assert (polls + [task])[..|polls|] == polls;
  }

  // ---------------------------------------------------------------------------------------
  // The loop as a function of the control store
  // ---------------------------------------------------------------------------------------

  /** What the service does, in order: sleep, poll the control store, execute a task. */
  datatype Action = Sleep(seconds: nat) | Poll(answer: Option<LoadTask>) | Run(task: LoadTask)

  /** One iteration: wait, get a task, execute it if there is one. */
  function Iteration(nZero: nat, task: Option<LoadTask>): seq<Action>
  {
    [Sleep(WaitSeconds(nZero)), Poll(task)] + (if task.Some? then [Run(task.value)] else [])
  }

  /** The actions of the iterations whose polls answered `polls`, the counter starting at 0. */
  function Schedule(polls: seq<Option<LoadTask>>): seq<Action>
  {
    if polls == [] then []
    else
      var before := polls[..|polls| - 1];
      Schedule(before) + Iteration(NZeros(before), polls[|polls| - 1])
  }

  /** The seconds slept by the iterations whose polls answered `polls`. */
  function Slept(polls: seq<Option<LoadTask>>): int
  {
    if polls == [] then 0
    else
      var before := polls[..|polls| - 1];
      Slept(before) + WaitSeconds(NZeros(before))
  }

  // ---------------------------------------------------------------------------------------
  // Properties of the loop
  // ---------------------------------------------------------------------------------------

  /** The first iteration sleeps one second before it polls. */
  lemma {:induction false} FirstWaitIsOneSecond(polls: seq<Option<LoadTask>>)
    requires polls != []
    ensures Schedule(polls)[0] == Sleep(1)
  {
    WaitBounds(0);
    if |polls| > 1 {
      FirstWaitIsOneSecond(polls[..|polls| - 1]);
    }
  }

  /** Every sleep of the loop lasts between 1 and 64 seconds. */
  lemma {:induction false} SleepsBounded(polls: seq<Option<LoadTask>>)
    ensures forall i :: 0 <= i < |Schedule(polls)| && Schedule(polls)[i].Sleep? ==>
              1 <= Schedule(polls)[i].seconds <= 64
  {
    if polls != [] {
      var before := polls[..|polls| - 1];
      SleepsBounded(before);
      WaitBounds(NZeros(before));
    }
  }

  /**
    Every poll is preceded by its sleep and every found task is executed right after its poll:
    the iterations run whole, one after the other.
  */
  lemma {:induction false} ScheduleLength(polls: seq<Option<LoadTask>>)
    ensures |Schedule(polls)| == 2 * |polls| + Found(polls)
  {
    if polls != [] {
      ScheduleLength(polls[..|polls| - 1]);
    }
  }

  /** The schedule of the first `n` iterations is the start of the whole schedule. */
  lemma {:induction false} SchedulePrefix(polls: seq<Option<LoadTask>>, n: nat)
    requires n <= |polls|
    ensures |Schedule(polls[..n])| <= |Schedule(polls)|
    ensures forall i :: 0 <= i < |Schedule(polls[..n])| ==> Schedule(polls)[i] == Schedule(polls[..n])[i]
    decreases |polls|
  {
    if n == |polls| {
      assert polls[..n] == polls;
    } else {
      var before := polls[..|polls| - 1];
      assert before[..n] == polls[..n];
      SchedulePrefix(before, n);
    }
  }

  /**
    The schedule is the iterations one after the other.  Iteration `k` starts after two actions
    per earlier iteration plus one per earlier run.  It sleeps as long as the empty polls before
    it dictate, then polls, and runs the task right after the poll when one was found.
  */
  lemma ScheduleIterations(polls: seq<Option<LoadTask>>, k: nat)
    requires k < |polls|
    ensures var o := 2 * k + Found(polls[..k]);
      var len := if polls[k].Some? then 3 else 2;
      && o + len <= |Schedule(polls)|
      && Schedule(polls)[o] == Sleep(WaitSeconds(NZeros(polls[..k])))
      && Schedule(polls)[o + 1] == Poll(polls[k])
      && (polls[k].Some? ==> Schedule(polls)[o + 2] == Run(polls[k].value))
      && 2 * (k + 1) + Found(polls[..k + 1]) == o + len
  {
    var pre := polls[..k + 1];
    assert pre[..k] == polls[..k];
    ScheduleLength(polls[..k]);
    SchedulePrefix(polls, k + 1);
  }

  /** One more poll appends its iteration, sleeping as the earlier polls dictate. */
  lemma ScheduleStep(polls: seq<Option<LoadTask>>, task: Option<LoadTask>)
    ensures Schedule(polls + [task]) == Schedule(polls) + Iteration(NZeros(polls), task)
    ensures Slept(polls + [task]) == Slept(polls) + WaitSeconds(NZeros(polls))
  {
    assert (polls + [task])[..|polls|] == polls;
  }

  /** The number of polls that found a task. */
  function Found(polls: seq<Option<LoadTask>>): nat
  {
    if polls == [] then 0
    else Found(polls[..|polls| - 1]) + (if polls[|polls| - 1].Some? then 1 else 0)
  }

  /** Each iteration sleeps at least one second and at most 64 seconds. */
  lemma {:induction false} SleptBounds(polls: seq<Option<LoadTask>>)
    ensures |polls| <= Slept(polls) <= 64 * |polls|
  {
    if polls != [] {
      var before := polls[..|polls| - 1];
      SleptBounds(before);
      WaitBounds(NZeros(before));
    }
  }

  /** The run of iteration `failAt` raises: that iteration was reached and found a task. */
  predicate RunRaises(polls: seq<Option<LoadTask>>, failAt: Option<nat>)
  {
    failAt.Some? && failAt.value < |polls| && polls[failAt.value].Some?
  }

  /** One more iteration raises exactly when it is iteration `failAt` and it found a task. */
  lemma RunRaisesStep(polls: seq<Option<LoadTask>>, task: Option<LoadTask>, failAt: Option<nat>)
    requires !RunRaises(polls, failAt)
    ensures RunRaises(polls + [task], failAt) == (failAt == Some(|polls|) && task.Some?)
  {
    if failAt.Some? && failAt.value < |polls| {
      assert (polls + [task])[failAt.value] == polls[failAt.value];
    }
  }

  // ---------------------------------------------------------------------------------------
  // The service
  // ---------------------------------------------------------------------------------------

  class LoaderService {
    const ctl: ControlStore
    const loaderId: string
    /** Set by the TERM and INT handlers; nothing clears it. */
    var terminating: bool
    /** Seconds since an arbitrary origin; only sleeping advances it. */
    var clock: int
    /** What the service has done so far, in order. */
    var actions: seq<Action>

    constructor(ctl: ControlStore, loaderId: string, clock: int)
      ensures this.ctl == ctl && this.loaderId == loaderId && this.clock == clock
      ensures !terminating && actions == []
    {
      this.ctl := ctl;
      this.loaderId := loaderId;
      this.clock := clock;
      terminating := false;
      actions := [];
    }

    /** `initiate_terminate`: set the flag. */
    method InitiateTerminate()
      modifies this
      ensures terminating && clock == old(clock) && actions == old(actions)
    {
      terminating := true;
    }

    /** `wait`: sleep `2^min(nZero, 6)` seconds. */
    method Wait(nZero: nat)
      modifies this
      ensures terminating == old(terminating)
      ensures clock == old(clock) + WaitSeconds(nZero)
      ensures actions == old(actions) + [Sleep(WaitSeconds(nZero))]
    {
      var sec := Pow2(Min(nZero, 6));
      actions := actions + [Sleep(sec)];
      clock := clock + sec;
    }

    /** `get_task`: `LoadTask.load` on a fresh connection, at the current time. */
    method GetTask() returns (task: Option<LoadTask>)
      requires Consistent(ctl.db)
      modifies this, ctl
      ensures Consistent(ctl.db)
      ensures terminating == old(terminating) && clock == old(clock)
      ensures ctl.db == Claim(old(ctl.db), loaderId, clock)
      ensures task == Fetch(ctl.db, loaderId)
      ensures actions == old(actions) + [Poll(task)]
    {
      ClaimConsistent(ctl.db, loaderId, clock);
      task := Load(ctl, loaderId, clock);
      actions := actions + [Poll(task)];
    }

    /**
      `execute`: hand the task to a loader.  The loader is not run here; `fails` says whether
      its `execute` raises, which it does for every load failure it re-raises.  Nothing in the
      service rescues it.
    */
    method Execute(task: LoadTask, fails: bool) returns (raised: bool)
      modifies this
      ensures raised == fails
      ensures terminating == old(terminating) && clock == old(clock)
      ensures actions == old(actions) + [Run(task)]
    {
      actions := actions + [Run(task)];
      raised := fails;
    }

    /**
      The body of `load_loop`: wait, get a task, execute it if there is one.  `fails` says
      whether that execute raises.
    */
    method Iterate(nZero: nat, fails: bool) returns (task: Option<LoadTask>, raised: bool)
      requires Consistent(ctl.db)
      modifies this, ctl
      ensures Consistent(ctl.db)
      ensures raised == (task.Some? && fails)
      ensures terminating == old(terminating) && clock == old(clock) + WaitSeconds(nZero)
      ensures actions == old(actions) + Iteration(nZero, task)
    {
      ghost var actions0 := actions;
      Wait(nZero);
      task := GetTask();
      raised := false;
      if task.Some? {
        raised := Execute(task.value, fails);
        AppendPair(actions0, Sleep(WaitSeconds(nZero)), Poll(task), [Run(task.value)]);
      } else {
        AppendPair(actions0, Sleep(WaitSeconds(nZero)), Poll(task), []);
      }
    }

    /**
      `load_loop`: iterate until the flag is seen at the top of an iteration.  A terminate
      signal is delivered during iteration `signalAt` (counting from 0); the iteration it
      interrupts runs to its end, and the loop stops before the next one.  A flag set before
      the call stops the loop before its first iteration.  The run of iteration `failAt`, if
      that iteration finds a task, raises: nothing rescues it, so the loop ends there with
      `raised` set.  The signal is taken to arrive at the end of its iteration, after the run,
      so the flag is still clear after a raise; a signal that arrives during the sleep or the
      poll of the raising iteration would set it, but nothing reads the flag after the raise.
      The answers `polls` of the iterations' `get_task` calls are returned.
    */
    method LoadLoop(signalAt: nat, failAt: Option<nat>) returns (polls: seq<Option<LoadTask>>, raised: bool)
      requires Consistent(ctl.db)
      modifies this, ctl
      ensures Consistent(ctl.db)
      ensures terminating == !raised
      ensures raised == RunRaises(polls, failAt)
      ensures |polls| == if old(terminating) then 0 else if raised then failAt.value + 1 else signalAt + 1
      ensures actions == old(actions) + Schedule(polls)
      ensures clock == old(clock) + Slept(polls)
    {
      var n := if terminating then 0 else signalAt + 1;
      var nZero := 0;
      polls := [];
      raised := false;
      while !terminating && !raised
        invariant |polls| <= n
        invariant !terminating && !raised ==> |polls| < n
        invariant terminating ==> |polls| == n && !raised
        invariant raised ==> failAt == Some(|polls| - 1) && |polls| > 0
        invariant raised == RunRaises(polls, failAt)
        invariant nZero == NZeros(polls)
        invariant actions == old(actions) + Schedule(polls)
        invariant clock == old(clock) + Slept(polls)
        invariant Consistent(ctl.db)
        decreases n - |polls|
      {
        var task, failed := Iterate(nZero, failAt == Some(|polls|));
        NZerosStep(polls, task);
        ScheduleStep(polls, task);
        AppendAssoc(old(actions), Schedule(polls), Iteration(nZero, task));
        nZero := if task.Some? then 0 else nZero + 1;
        RunRaisesStep(polls, task, failAt);
        polls := polls + [task];
        raised := failed;
        if !raised && |polls| == n {
          InitiateTerminate();
        }
      }
    }
  }
}
