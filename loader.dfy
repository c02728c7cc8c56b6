/**
  `Loader`: claims a job for its task with `assign_task`, then loads the task's objects through a
  temporary manifest, either via a work table or directly into the destination, and records the
  job's result in the control store.

  Each request to the bucket, the warehouse or the control store is appended to a journal.  An
  exception is injected as a `Fault` naming the position, in the fault-free request sequence,
  of the request that raises.
*/
module Loaders {
  import opened Wrappers
  import opened Seqs
  import opened Windowing
  import opened ControlStores
  import opened Effects
  import opened Manifests
  import LoadTasks

  /** Longest message written to `strload_jobs`. */
  const MaxMessageLength: nat := 1000

  // ---------------------------------------------------------------------------------------
  // assign_task
  // ---------------------------------------------------------------------------------------

  /** The state after `assign_task` and the `job_seq` it returns (nil when nothing was inserted). */
  datatype Assigned = Assigned(db: Db, jobSeq: Option<nat>)

  /** `assign_task`: a `running` job for an existing task that has no job yet, or any job on rerun. */
  function AssignTask(db: Db, taskSeq: nat, rerun: bool, processId: string, now: int): Assigned
  {
    if TaskBySeq(db.backlog.tasks, taskSeq).Some? && (!HasJob(db.jobs, taskSeq) || rerun) then
      Assigned(AppendJob(db, taskSeq, None, Some(processId), now), Some(db.nextJobSeq))
    else
      Assigned(db, None)
  }

  /**
    `assign_task` returns a `job_seq` exactly when the task exists and either has no job or
    `rerun` is set; it then inserts exactly one `running` job under that number, and otherwise
    changes nothing.
  */
  lemma AssignTaskSpec(db: Db, taskSeq: nat, rerun: bool, processId: string, now: int)
    ensures var a := AssignTask(db, taskSeq, rerun, processId, now);
      && (a.jobSeq.Some? <==>
            (exists t :: t in db.backlog.tasks && t.taskSeq == taskSeq) && (rerun || !HasJob(db.jobs, taskSeq)))
      && (a.jobSeq.None? ==> a.db == db)
      && (a.jobSeq.Some? ==>
            && a.db.tables == db.tables && a.db.backlog == db.backlog
            && a.db.jobs == db.jobs + [JobRow(a.jobSeq.value, taskSeq, None, Some(processId), Running, now, None, None)]
            && forall j :: j in db.jobs && Consistent(db) ==> j.jobSeq < a.jobSeq.value)
  {
    if (exists t :: t in db.backlog.tasks && t.taskSeq == taskSeq) {
      assert TaskBySeq(db.backlog.tasks, taskSeq).Some?;
    }
  }

  /** Without rerun, a task that was assigned once is never assigned again. */
  lemma SecondAssignRefused(db: Db, taskSeq: nat, rerun: bool, p1: string, now1: int, p2: string, now2: int)
    requires AssignTask(db, taskSeq, rerun, p1, now1).jobSeq.Some?
    ensures var db' := AssignTask(db, taskSeq, rerun, p1, now1).db;
      AssignTask(db', taskSeq, false, p2, now2) == Assigned(db', None)
  {
    var db' := AssignTask(db, taskSeq, rerun, p1, now1).db;
    assert db'.jobs[|db.jobs|].taskSeq == taskSeq;
  }

  /**
    `LoadTask.load` followed by `Loader#execute` for the task it claimed: the claim already
    inserted a job for the task, so without rerun `assign_task` inserts nothing and the loader
    performs no load.
  */
  lemma ClaimThenAssignRefused(db: Db, loaderId: string, now: int, processId: string, later: int)
    requires |LoadTasks.Claim(db, loaderId, now).jobs| > |db.jobs|
    ensures var db' := LoadTasks.Claim(db, loaderId, now);
      var claimed := db'.jobs[|db.jobs|].taskSeq;
      AssignTask(db', claimed, false, processId, later) == Assigned(db', None)
  {
    var db' := LoadTasks.Claim(db, loaderId, now);
    assert db'.jobs[|db.jobs|] in db'.jobs;
  }

  /**
    `assign_task` fills `process_id` and leaves `loader_id` NULL, while `LoadTask.load` fetches
    by `loader_id`: the job it inserts is never fetched, whatever the loader id, and every
    loader's fetch answers as before.
  */
  lemma AssignedJobNeverFetched(db: Db, taskSeq: nat, rerun: bool, processId: string, now: int, loaderId: string)
    ensures var a := AssignTask(db, taskSeq, rerun, processId, now);
      && (a.jobSeq.Some? ==> |a.db.jobs| == |db.jobs| + 1 && !LoadTasks.Fetchable(a.db, a.db.jobs[|db.jobs|], loaderId))
      && LoadTasks.Fetch(a.db, loaderId) == LoadTasks.Fetch(db, loaderId)
  {
    var a := AssignTask(db, taskSeq, rerun, processId, now);
    if a.jobSeq.Some? {
      LoadTasks.LatestIgnoresUnfetchable(db, a.db, db.jobs, a.db.jobs[|db.jobs|], loaderId);
      assert a.db.jobs == db.jobs + [a.db.jobs[|db.jobs|]];
    }
  }

  // ---------------------------------------------------------------------------------------
  // Result messages
  // ---------------------------------------------------------------------------------------

  /** The characters Ruby's `String#strip` removes: NUL, tab, LF, VT, FF, CR and space. */
  predicate IsStripSpace(c: char)
  {
    c == 0 as char || 9 as char <= c <= 13 as char || c == ' '
  }

  /** `lines.first`: up to and including the first line feed, or the whole string. */
  function FirstLine(s: string): (r: string)
    requires s != []
    ensures 0 < |r| <= |s|
  {
    if s[0] == '\n' || |s| == 1 then [s[0]] else [s[0]] + FirstLine(s[1..])
  }

  /** The first line is a prefix that holds a line feed at most at its end, which it reaches otherwise. */
  lemma {:induction false} FirstLineFacts(s: string)
    requires s != []
    ensures var r := FirstLine(s);
      && r == s[..|r|]
      && (forall i :: 0 <= i < |r| - 1 ==> r[i] != '\n')
      && (r[|r| - 1] == '\n' || r == s)
  {
    if s[0] != '\n' && |s| > 1 {
      FirstLineFacts(s[1..]);
    }
  }

  /** A string without line feed is its own first line. */
  lemma {:induction false} FirstLineOfLine(s: string)
    requires s != [] && forall i :: 0 <= i < |s| ==> s[i] != '\n'
    ensures FirstLine(s) == s
  {
    if |s| > 1 {
      FirstLineOfLine(s[1..]);
    }
  }

  /** Drops leading strip characters. */
  function StripStart(s: string): (r: string)
    ensures |r| <= |s|
  {
    if s != [] && IsStripSpace(s[0]) then StripStart(s[1..]) else s
  }

  /** What `StripStart` drops is strip characters, and what it keeps is the rest of the string. */
  lemma {:induction false} StripStartFacts(s: string)
    ensures var r := StripStart(s);
      && r == s[|s| - |r|..]
      && (r != [] ==> !IsStripSpace(r[0]))
      && (forall i :: 0 <= i < |s| - |r| ==> IsStripSpace(s[i]))
  {
    if s != [] && IsStripSpace(s[0]) {
      StripStartFacts(s[1..]);
    }
  }

  /** Drops trailing strip characters. */
  function StripEnd(s: string): (r: string)
    ensures |r| <= |s|
  {
    if s != [] && IsStripSpace(s[|s| - 1]) then StripEnd(s[..|s| - 1]) else s
  }

  /** What `StripEnd` drops is strip characters, and what it keeps is the start of the string. */
  lemma {:induction false} StripEndFacts(s: string)
    ensures var r := StripEnd(s);
      && r == s[..|r|]
      && (r != [] ==> !IsStripSpace(r[|r| - 1]))
      && (forall i :: |r| <= i < |s| ==> IsStripSpace(s[i]))
  {
    if s != [] && IsStripSpace(s[|s| - 1]) {
      StripEndFacts(s[..|s| - 1]);
    }
  }

  /** `strip`. */
  function Strip(s: string): string
  {
    StripEnd(StripStart(s))
  }

  /**
    `message.lines.first.strip[0, MAX_MESSAGE_LENGTH]`.  An empty message has no first line:
    `lines.first` is nil and the call raises, which `None` stands for.
  */
  function TruncateMessage(message: string): Option<string>
  {
    if message == [] then None
    else
      var line := Strip(FirstLine(message));
      Some(if |line| <= MaxMessageLength then line else line[..MaxMessageLength])
  }

  /**
    The stripped string sits inside the original at some position `k`: only strip characters
    come before it and only strip characters follow it.
  */
  lemma StripPosition(x: string) returns (k: nat)
    ensures k + |Strip(x)| <= |x| && Strip(x) == x[k..k + |Strip(x)|]
    ensures forall i :: 0 <= i < k ==> IsStripSpace(x[i])
    ensures forall i :: k + |Strip(x)| <= i < |x| ==> IsStripSpace(x[i])
  {
    var s1 := StripStart(x);
    var s2 := StripEnd(s1);
    k := |x| - |s1|;
    StripStartFacts(x);
    StripEndFacts(s1);
    assert x[k..k + |s2|] == s1[..|s2|];
    forall i | k + |s2| <= i < |x| ensures IsStripSpace(x[i]) {
      assert x[i] == s1[i - k];
    }
  }

  /** A stripped string neither starts nor ends with a strip character. */
  lemma StripEnds(x: string)
    ensures Strip(x) != [] ==> !IsStripSpace(Strip(x)[0]) && !IsStripSpace(Strip(x)[|Strip(x)| - 1])
  {
    var s1 := StripStart(x);
    var s2 := StripEnd(s1);
    assert s1 != [] ==> !IsStripSpace(s1[0]) by {
      StripStartFacts(x);
    }
    assert s2 == s1[..|s2|] && (s2 != [] ==> !IsStripSpace(s2[|s2| - 1])) by {
      StripEndFacts(s1);
    }
    if s2 != [] {
      assert s2[0] == s1[0];
    }
  }

  /**
    A piece of a line that holds a line feed at most at its end, and that does not end with a
    strip character, holds no line feed.
  */
  lemma NoLineFeedInPiece(line: string, piece: string, k: nat)
    requires k + |piece| <= |line|
    requires forall i :: 0 <= i < |piece| ==> piece[i] == line[k + i]
    requires forall i :: 0 <= i < |line| - 1 ==> line[i] != '\n'
    requires piece != [] ==> !IsStripSpace(piece[|piece| - 1])
    ensures forall i :: 0 <= i < |piece| ==> piece[i] != '\n'
  {
    forall i | 0 <= i < |piece| ensures piece[i] != '\n' {
      if k + i == |line| - 1 {
        assert i == |piece| - 1;
      }
    }
  }

  /** Stripping a first line removes its line feed. */
  lemma StripFirstLine(message: string)
    requires message != []
    ensures forall i :: 0 <= i < |Strip(FirstLine(message))| ==> Strip(FirstLine(message))[i] != '\n'
  {
    var first := FirstLine(message);
    var piece := Strip(first);
    var k := StripPosition(first);
    assert forall i :: 0 <= i < |piece| ==> piece[i] == first[k + i];
    assert piece != [] ==> !IsStripSpace(piece[|piece| - 1]) by {
      StripEnds(first);
    }
    assert forall i :: 0 <= i < |first| - 1 ==> first[i] != '\n' by {
      FirstLineFacts(message);
    }
    NoLineFeedInPiece(first, piece, k);
  }

  /**
    `r`, found at position `k` of a non-empty message, is what `strip` and the cut at 1000
    characters leave of the first line, described without `strip`.  It lies inside the first
    line, after a run of strip characters, holds no line feed and starts with a character that
    is not a strip character.  It is at most 1000 characters long, and shorter only when only
    strip characters follow it in the first line.  When only strip characters follow it, it
    ends with a character that is not a strip character.
  */
  ghost predicate RecordedFrom(message: string, r: string, k: nat)
    requires message != []
  {
    var e := |FirstLine(message)|;
    && |r| <= MaxMessageLength
    && k + |r| <= e
    && r == message[k..k + |r|]
    && (forall i :: 0 <= i < k ==> IsStripSpace(message[i]))
    && (r != [] ==> !IsStripSpace(r[0]))
    && (forall i :: 0 <= i < |r| ==> r[i] != '\n')
    && (|r| < MaxMessageLength ==> forall i :: k + |r| <= i < e ==> IsStripSpace(message[i]))
    && ((forall i :: k + |r| <= i < e ==> IsStripSpace(message[i])) ==> r == [] || !IsStripSpace(r[|r| - 1]))
  }

  /** At most one text meets `RecordedFrom` for a given message. */
  lemma RecordedFromUnique(message: string, r1: string, k1: nat, r2: string, k2: nat)
    requires message != [] && RecordedFrom(message, r1, k1) && RecordedFrom(message, r2, k2)
    ensures r1 == r2
  {
    if r1 != [] {
      assert message[k1] == r1[0];
      assert message[k1 + |r1| - 1] == r1[|r1| - 1];
    }
    if r2 != [] {
      assert message[k2] == r2[0];
      assert message[k2 + |r2| - 1] == r2[|r2| - 1];
    }
  }

  /**
    `message.lines.first.strip[0, 1000]`: an empty message has no first line and records
    nothing; otherwise the recorded text is the one and only text that `RecordedFrom` describes.
  */
  lemma TruncateMessageSpec(message: string) returns (k: nat)
    ensures TruncateMessage(message).None? <==> message == []
    ensures message != [] ==> RecordedFrom(message, TruncateMessage(message).value, k)
    ensures message != [] ==>
      forall r, k' :: RecordedFrom(message, r, k') ==> r == TruncateMessage(message).value
  {
    k := 0;
    if message != [] {
      var line := Strip(FirstLine(message));
      var r := TruncateMessage(message).value;
      k := StrippedLinePosition(message);
      assert r == line[..|r|];
      assert message[k..k + |r|] == message[k..k + |line|][..|r|];
      StripEnds(FirstLine(message));
      StripFirstLine(message);
      if line != [] {
        assert message[k + |line| - 1] == line[|line| - 1];
      }
      assert RecordedFrom(message, r, k);
      forall r', k' | RecordedFrom(message, r', k') ensures r' == r {
        RecordedFromUnique(message, r', k', r, k);
      }
    }
  }

  /** Where the stripped first line lies in the message, and what surrounds it in the first line. */
  lemma StrippedLinePosition(message: string) returns (k: nat)
    requires message != []
    ensures var line := Strip(FirstLine(message));
      var e := |FirstLine(message)|;
      && k + |line| <= e
      && line == message[k..k + |line|]
      && (forall i :: 0 <= i < k ==> IsStripSpace(message[i]))
      && (forall i :: k + |line| <= i < e ==> IsStripSpace(message[i]))
  {
    var first := FirstLine(message);
    var n := |Strip(first)|;
    k := StripPosition(first);
    FirstLineFacts(message);
    assert first == message[..|first|];
    assert message[..|first|][k..k + n] == message[k..k + n];
    assert forall i :: 0 <= i < |first| ==> message[i] == first[i];
  }

  /** A clean single line of at most 1000 characters is recorded verbatim. */
  lemma TruncateMessageKeepsCleanLine(message: string)
    requires message != [] && |message| <= MaxMessageLength
    requires forall i :: 0 <= i < |message| ==> message[i] != '\n'
    requires !IsStripSpace(message[0]) && !IsStripSpace(message[|message| - 1])
    ensures TruncateMessage(message) == Some(message)
  {
    FirstLineOfLine(message);
    assert StripStart(message) == message;
    assert StripEnd(message) == message;
  }
  /** Only the first line matters: whatever follows the first line feed is never recorded. */
  lemma {:induction false} FirstLineOnly(line: string, rest1: string, rest2: string)
    requires forall i :: 0 <= i < |line| ==> line[i] != '\n'
    ensures FirstLine(line + "\n" + rest1) == FirstLine(line + "\n" + rest2) == line + "\n"
  {
    if line != [] {
      assert (line + "\n" + rest1)[1..] == line[1..] + "\n" + rest1;
      assert (line + "\n" + rest2)[1..] == line[1..] + "\n" + rest2;
      FirstLineOnly(line[1..], rest1, rest2);
    }
  }

  // ---------------------------------------------------------------------------------------
  // write_job_result
  // ---------------------------------------------------------------------------------------

  /**
    Whether the message holds a single quote.  `write_job_result` pastes the message between
    single quotes without escaping it, so a quote ends the string literal early and the update
    raises.
  */
  predicate HasQuote(message: string)
  {
    '\'' in message
  }

  /**
    `write_job_result`: sets status, finish time and message of the job numbered `jobSeq`; a
    message with a quote breaks the statement and nothing changes.
  */
  function WriteJobResult(db: Db, jobSeq: nat, status: Status, message: string, now: int): (r: Db)
    ensures |r.jobs| == |db.jobs|
  {
    if HasQuote(message) then db
    else
    db.(jobs := seq(|db.jobs|, i requires 0 <= i < |db.jobs| =>
                   if db.jobs[i].jobSeq == jobSeq
                   then db.jobs[i].(status := status, finishTime := Some(now), message := Some(message))
                   else db.jobs[i]))
  }

  /**
    The update touches only the rows numbered `jobSeq`, and there only status, finish time and
    message; the tasks, objects and tables are untouched and the invariant is kept.  A message
    with a quote changes nothing.
  */
  lemma WriteJobResultSpec(db: Db, jobSeq: nat, status: Status, message: string, now: int)
    ensures var r := WriteJobResult(db, jobSeq, status, message, now);
      && r.tables == db.tables && r.backlog == db.backlog && r.nextJobSeq == db.nextJobSeq
      && (forall i :: 0 <= i < |db.jobs| && db.jobs[i].jobSeq != jobSeq ==> r.jobs[i] == db.jobs[i])
      && (HasQuote(message) ==> r == db)
      && (!HasQuote(message) ==> forall i :: 0 <= i < |db.jobs| && db.jobs[i].jobSeq == jobSeq ==>
            r.jobs[i] == JobRow(jobSeq, db.jobs[i].taskSeq, db.jobs[i].loaderId, db.jobs[i].processId, status,
                                db.jobs[i].startTime, Some(now), Some(message)))
      && (Consistent(db) ==> Consistent(r))
  {
    var r := WriteJobResult(db, jobSeq, status, message, now);
    if Consistent(db) {
      forall j | j in r.jobs ensures exists t :: t in r.backlog.tasks && t.taskSeq == j.taskSeq {
        var i :| 0 <= i < |r.jobs| && r.jobs[i] == j;
        assert db.jobs[i] in db.jobs;
      }
    }
  }

  /** A later result overwrites an earlier one for the same job, unless its update breaks on a quote. */
  lemma LastResultWins(db: Db, jobSeq: nat, s1: Status, m1: string, t1: int, s2: Status, m2: string, t2: int)
    ensures WriteJobResult(WriteJobResult(db, jobSeq, s1, m1, t1), jobSeq, s2, m2, t2)
            == if HasQuote(m2) then WriteJobResult(db, jobSeq, s1, m1, t1) else WriteJobResult(db, jobSeq, s2, m2, t2)
  {
    if !HasQuote(m2) {
      var a := WriteJobResult(WriteJobResult(db, jobSeq, s1, m1, t1), jobSeq, s2, m2, t2);
      var b := WriteJobResult(db, jobSeq, s2, m2, t2);
      assert a.jobs == b.jobs;
    }
  }

  // ---------------------------------------------------------------------------------------
  // do_load: the request sequence
  // ---------------------------------------------------------------------------------------

  /**
    An exception raised by the request at position `at` of the fault-free request sequence;
    `jobFailure` tells a `JobFailure` from any other exception.
  */
  datatype Fault = Fault(at: nat, jobFailure: bool, message: string)

  /** How `execute` ends. */
  datatype Outcome =
    | Skipped                                      // `assign_task` returned nil
    | Completed
    | Reraised(jobFailure: bool, message: string)  // result recorded, exception re-raised
    | RecordFailed                                 // the rescue itself raised: no first line, or a quote

  /** The requests of a load that raises nothing, through the work table or directly. */
  function Plan(workTable: bool, name: string, url: string, jobSeq: nat): seq<Effect>
  {
    if workTable then
      [PutManifest(name), TruncateWorkTable, CopyInto(WorkTable, url), Begin, RunSqlSource,
       WriteResult(jobSeq, Success, ""), Commit, DeleteManifest(name)]
    else
      [PutManifest(name), Begin, CopyInto(DestTable, url), WriteResult(jobSeq, Success, ""), Commit,
       DeleteManifest(name)]
  }

  /** The requests of `@connection.transaction { statement; commit_job_result }` when nothing raises. */
  function TransactionSteps(statement: Effect, jobSeq: nat): seq<Effect>
  {
    [Begin, statement, WriteResult(jobSeq, Success, ""), Commit]
  }

  /** Positions in the plan of `begin`, of the success write and of `commit`, and its length. */
  function BeginAt(workTable: bool): nat { if workTable then 3 else 1 }
  function SuccessAt(workTable: bool): nat { if workTable then 5 else 3 }
  function CommitAt(workTable: bool): nat { if workTable then 6 else 4 }
  function PlanLength(workTable: bool): nat { if workTable then 8 else 6 }

  /**
    Whether the fault hits a request of the plan.  The success write carries the empty message
    and is taken not to fail, so a fault placed on it or past the end raises nothing.
  */
  predicate Hits(workTable: bool, fault: Option<Fault>)
  {
    fault.Some? && fault.value.at < PlanLength(workTable) && fault.value.at != SuccessAt(workTable)
  }

  /**
    The plan puts the manifest first and deletes it last, writes `success` exactly once, inside
    the transaction, right before `commit`.
  */
  lemma PlanShape(workTable: bool, name: string, url: string, jobSeq: nat)
    ensures var plan := Plan(workTable, name, url, jobSeq);
      && |plan| == PlanLength(workTable)
      && plan[0] == PutManifest(name) && plan[|plan| - 1] == DeleteManifest(name)
      && plan[BeginAt(workTable)] == Begin && plan[CommitAt(workTable)] == Commit
      && BeginAt(workTable) < SuccessAt(workTable) == CommitAt(workTable) - 1
      && (forall i :: 0 <= i < |plan| ==>
            (plan[i].WriteResult? <==> i == SuccessAt(workTable)))
      && plan[SuccessAt(workTable)] == WriteResult(jobSeq, Success, "")
      && Rollback !in plan
  {
  }

  lemma PlanEnds(workTable: bool, name: string, url: string, jobSeq: nat)
    ensures var plan := Plan(workTable, name, url, jobSeq);
      |plan| == PlanLength(workTable) && plan[0] == PutManifest(name) && plan[|plan| - 1] == DeleteManifest(name)
  {
  }

  /** `failure` for a `JobFailure`, `error` for anything else. */
  function ErrorStatus(f: Fault): Status
  {
    if f.jobFailure then Failure else Error
  }

  /**
    Whether the rescue records the error: the message has a first line and the truncated text
    holds no quote.
  */
  predicate ErrorRecorded(f: Fault)
  {
    f.message != [] && !HasQuote(TruncateMessage(f.message).value)
  }

  /** The write the rescue clause issues; none when the message has no first line. */
  function ErrorWrites(jobSeq: nat, f: Fault): seq<Effect>
  {
    match TruncateMessage(f.message)
    case None => []
    case Some(m) => [WriteResult(jobSeq, ErrorStatus(f), m)]
  }

  /**
    The requests issued up to a raise at position `i`: the plan through `i`, then a rollback
    when `i` lies strictly inside the transaction.
  */
  function RaisedAt(workTable: bool, plan: seq<Effect>, i: nat): seq<Effect>
    requires i < |plan|
  {
    plan[..i + 1] + (if BeginAt(workTable) < i < CommitAt(workTable) then [Rollback] else [])
  }

  /** The requests `do_load` issues under `fault`, the rescue's write included. */
  function Trace(workTable: bool, name: string, url: string, jobSeq: nat, fault: Option<Fault>): seq<Effect>
  {
    var plan := Plan(workTable, name, url, jobSeq);
    if !Hits(workTable, fault) then plan
    else RaisedAt(workTable, plan, fault.value.at) + ErrorWrites(jobSeq, fault.value)
  }

  /** How `do_load` ends under `fault`. */
  function LoadOutcome(workTable: bool, fault: Option<Fault>): Outcome
  {
    if !Hits(workTable, fault) then Completed
    else if !ErrorRecorded(fault.value) then RecordFailed
    else Reraised(fault.value.jobFailure, fault.value.message)
  }

  /** The bucket after `do_load`: the manifest stays behind whenever `delete` is not reached or fails. */
  function BucketAfter(objects: map<string, ManifestDoc>, name: string, doc: ManifestDoc,
                       workTable: bool, fault: Option<Fault>): map<string, ManifestDoc>
  {
    if !Hits(workTable, fault) then objects - {name}
    else if fault.value.at == 0 then objects
    else objects[name := doc]
  }

  /**
    The control store after `do_load`: `success` once the success write is reached, then the
    rescue's `failure` or `error` over it unless the message has no first line or its update
    breaks on a quote.
  */
  function LoadResult(db: Db, workTable: bool, jobSeq: nat, fault: Option<Fault>, now: int): Db
  {
    var success := WriteJobResult(db, jobSeq, Success, "", now);
    if !Hits(workTable, fault) then success
    else
      var f := fault.value;
      var before := if f.at >= SuccessAt(workTable) then success else db;
      if f.message == [] then before
      else WriteJobResult(before, jobSeq, ErrorStatus(f), TruncateMessage(f.message).value, now)
  }

  /** The control store after the result writes among `effects`, applied in order at time `now`. */
  function Replay(db: Db, effects: seq<Effect>, now: int): Db
  {
    if effects == [] then db
    else
      var before := Replay(db, effects[..|effects| - 1], now);
      match effects[|effects| - 1]
      case WriteResult(j, s, m) => WriteJobResult(before, j, s, m, now)
      case _ => before
  }

  lemma ReplayStep(db: Db, effects: seq<Effect>, e: Effect, now: int)
    ensures Replay(db, effects + [e], now)
            == (if e.WriteResult? then WriteJobResult(Replay(db, effects, now), e.jobSeq, e.status, e.message, now)
                else Replay(db, effects, now))
  {
    assert (effects + [e])[..|effects|] == effects;
  }

  lemma JournalJoin<T>(j0: seq<T>, p: seq<T>, i: nat, k: nat, tail: seq<T>)
    requires i <= k <= |p|
    ensures j0 + p[..i] + p[i..k] + tail == j0 + (p[..k] + tail)
    ensures j0 + p[..i] + p[i..k] == j0 + p[..k]
  {
    assert p[..i] + p[i..k] == p[..k];
  }

  /** Joins the requests before a transaction with a prefix of the transaction's requests. */
  lemma TransactionJoin<T>(base: seq<T>, plan: seq<T>, b: nat, e: nat, m: nat)
    requires 1 <= b && m <= e - b && e <= |plan|
    ensures base + plan[1..b] + plan[b..e][..m] == base + plan[1..b + m]
    ensures forall tail :: base + plan[1..b] + plan[b..e][..m] + tail == base + plan[1..b + m] + tail
  {
    assert plan[1..b] + plan[b..e][..m] == plan[1..b + m];
  }

  lemma PutThenRemove<K, V>(m: map<K, V>, k: K, v: V)
    ensures m[k := v] - {k} == m - {k}
  {
  }

  lemma {:induction false} ReplayAppend(db: Db, a: seq<Effect>, b: seq<Effect>, now: int)
    ensures Replay(db, a + b, now) == Replay(Replay(db, a, now), b, now)
  {
    if b == [] {
      assert a + b == a;
    } else {
      var b' := b[..|b| - 1];
      ReplayAppend(db, a, b', now);
      assert a + b == (a + b') + [b[|b| - 1]];
      assert b == b' + [b[|b| - 1]];
      ReplayStep(db, a + b', b[|b| - 1], now);
      ReplayStep(Replay(db, a, now), b', b[|b| - 1], now);
    }
  }

  lemma {:induction false} ReplayNoWrites(db: Db, effects: seq<Effect>, now: int)
    requires forall i :: 0 <= i < |effects| ==> !effects[i].WriteResult?
    ensures Replay(db, effects, now) == db
  {
    if effects != [] {
      ReplayNoWrites(db, effects[..|effects| - 1], now);
    }
  }

  /** Replaying a prefix of a sequence whose only result write sits at `s`. */
  lemma ReplayPrefix(db: Db, p: seq<Effect>, s: nat, i: nat, now: int)
    requires s < |p| && i <= |p| && p[s].WriteResult?
    requires forall k :: 0 <= k < |p| && k != s ==> !p[k].WriteResult?
    ensures Replay(db, p[..i], now)
            == (if i > s then WriteJobResult(db, p[s].jobSeq, p[s].status, p[s].message, now) else db)
  {
    if i <= s {
      ReplayNoWrites(db, p[..i], now);
    } else {
      assert p[..i] == p[..s] + [p[s]] + p[s + 1..i];
      ReplayAppend(db, p[..s] + [p[s]], p[s + 1..i], now);
      ReplayStep(db, p[..s], p[s], now);
      ReplayNoWrites(db, p[..s], now);
      ReplayNoWrites(WriteJobResult(db, p[s].jobSeq, p[s].status, p[s].message, now), p[s + 1..i], now);
    }
  }

  /**
    Replaying the requests issued up to a raise at `i` leaves the job row untouched when the
    raise comes before the success write, and records `success` when it comes after.
  */
  lemma ReplayRaisedAt(workTable: bool, name: string, url: string, jobSeq: nat, i: nat, db: Db, now: int)
    requires i < PlanLength(workTable)
    ensures var plan := Plan(workTable, name, url, jobSeq);
      Replay(db, RaisedAt(workTable, plan, i), now)
      == (if i >= SuccessAt(workTable) then WriteJobResult(db, jobSeq, Success, "", now) else db)
  {
    var plan := Plan(workTable, name, url, jobSeq);
    PlanShape(workTable, name, url, jobSeq);
    ReplayPrefix(db, plan, SuccessAt(workTable), i + 1, now);
    var tail := if BeginAt(workTable) < i < CommitAt(workTable) then [Rollback] else [];
    ReplayAppend(db, plan[..i + 1], tail, now);
    ReplayNoWrites(Replay(db, plan[..i + 1], now), tail, now);
  }

  /** Replaying the whole plan records `success`. */
  lemma ReplayPlan(workTable: bool, name: string, url: string, jobSeq: nat, db: Db, now: int)
    ensures Replay(db, Plan(workTable, name, url, jobSeq), now) == WriteJobResult(db, jobSeq, Success, "", now)
  {
    var plan := Plan(workTable, name, url, jobSeq);
    PlanShape(workTable, name, url, jobSeq);
    ReplayPrefix(db, plan, SuccessAt(workTable), |plan|, now);
    assert plan[..|plan|] == plan;
  }

  /** Replaying the rescue's write after the issued requests. */
  lemma ReplayErrorWrites(db: Db, issued: seq<Effect>, jobSeq: nat, f: Fault, now: int)
    ensures Replay(db, issued + ErrorWrites(jobSeq, f), now)
            == (if f.message == [] then Replay(db, issued, now)
                else WriteJobResult(Replay(db, issued, now), jobSeq, ErrorStatus(f), TruncateMessage(f.message).value, now))
  {
    match TruncateMessage(f.message)
    case None =>
      assert issued + ErrorWrites(jobSeq, f) == issued;
    case Some(m) =>
      ReplayStep(db, issued, WriteResult(jobSeq, ErrorStatus(f), m), now);
  }

  /**
    The control store `do_load` leaves is exactly the replay of the result writes among the
    requests it issues, whatever the fault.
  */
  lemma TraceReplaysToLoadResult(workTable: bool, name: string, url: string, jobSeq: nat, fault: Option<Fault>,
                                 db: Db, now: int)
    ensures Replay(db, Trace(workTable, name, url, jobSeq, fault), now) == LoadResult(db, workTable, jobSeq, fault, now)
  {
    var plan := Plan(workTable, name, url, jobSeq);
    if !Hits(workTable, fault) {
      ReplayPlan(workTable, name, url, jobSeq, db, now);
    } else {
      ReplayRaisedAt(workTable, name, url, jobSeq, fault.value.at, db, now);
      ReplayErrorWrites(db, RaisedAt(workTable, plan, fault.value.at), jobSeq, fault.value, now);
    }
  }

  // ---------------------------------------------------------------------------------------
  // Properties of a load
  // ---------------------------------------------------------------------------------------

  /**
    The job's row after `do_load`: `success` with the empty message when nothing raises; the
    rescue's status with the truncated message when something raises and the rescue records
    it; and when the message is empty or its truncated text holds a quote the rescue records
    nothing, so the row keeps `success` if the success write was reached and is untouched
    otherwise.  Other rows, the tasks, the objects and the
    tables are untouched, and the invariant is kept.
  */
  lemma LoadRecordsStatus(db: Db, workTable: bool, jobSeq: nat, fault: Option<Fault>, now: int)
    ensures var r := LoadResult(db, workTable, jobSeq, fault, now);
      && r.tables == db.tables && r.backlog == db.backlog && |r.jobs| == |db.jobs|
      && (forall i :: 0 <= i < |db.jobs| && db.jobs[i].jobSeq != jobSeq ==> r.jobs[i] == db.jobs[i])
      && (Consistent(db) ==> Consistent(r))
      && forall i :: 0 <= i < |db.jobs| && db.jobs[i].jobSeq == jobSeq ==>
           var row := db.jobs[i];
           && (!Hits(workTable, fault) ==>
                 r.jobs[i] == row.(status := Success, finishTime := Some(now), message := Some("")))
           && (Hits(workTable, fault) && ErrorRecorded(fault.value) ==>
                 r.jobs[i] == row.(status := ErrorStatus(fault.value), finishTime := Some(now),
                                   message := TruncateMessage(fault.value.message)))
           && (Hits(workTable, fault) && !ErrorRecorded(fault.value) && fault.value.at < SuccessAt(workTable) ==>
                 r.jobs[i] == row)
           && (Hits(workTable, fault) && !ErrorRecorded(fault.value) && fault.value.at > SuccessAt(workTable) ==>
                 r.jobs[i] == row.(status := Success, finishTime := Some(now), message := Some("")))
  {
    var success := WriteJobResult(db, jobSeq, Success, "", now);
    WriteJobResultSpec(db, jobSeq, Success, "", now);
    if Hits(workTable, fault) && fault.value.message != [] {
      var f := fault.value;
      var before := if f.at >= SuccessAt(workTable) then success else db;
      WriteJobResultSpec(before, jobSeq, ErrorStatus(f), TruncateMessage(f.message).value, now);
      assert TruncateMessage(f.message).Some?;
    }
  }

  /**
    The transaction is rolled back exactly when the raising request lies strictly between
    `begin` and `commit`; a raise before `begin`, at `begin`, at `commit` or after it (the
    manifest's delete) issues no rollback.
  */
  lemma RollbackIffInsideTransaction(workTable: bool, name: string, url: string, jobSeq: nat, fault: Option<Fault>)
    ensures Rollback in Trace(workTable, name, url, jobSeq, fault)
            <==> Hits(workTable, fault) && BeginAt(workTable) < fault.value.at < CommitAt(workTable)
  {
    var plan := Plan(workTable, name, url, jobSeq);
    PlanShape(workTable, name, url, jobSeq);
    if Hits(workTable, fault) {
      var f := fault.value;
      var tail := if BeginAt(workTable) < f.at < CommitAt(workTable) then [Rollback] else [];
      var tr := Trace(workTable, name, url, jobSeq, fault);
      var prefix := plan[..f.at + 1];
      assert tr == prefix + tail + ErrorWrites(jobSeq, f);
      assert Rollback !in prefix by {
        forall k | 0 <= k < |prefix| ensures prefix[k] != Rollback {
          assert prefix[k] == plan[k];
        }
      }
      assert Rollback !in ErrorWrites(jobSeq, f);
    }
  }

  /**
    The success write is issued inside the transaction, right before `commit`, on the
    control-store connection: when `commit` raises with a message the rescue overwrites it with
    the error, but when the message is empty the row keeps `success` although the warehouse
    did not commit.
  */
  lemma FailedCommitKeepsSuccess(db: Db, workTable: bool, name: string, url: string, jobSeq: nat,
                                 jobFailure: bool, now: int)
    ensures var fault := Some(Fault(CommitAt(workTable), jobFailure, ""));
      && Trace(workTable, name, url, jobSeq, fault)
         == Plan(workTable, name, url, jobSeq)[..CommitAt(workTable) + 1]
      && WriteResult(jobSeq, Success, "") in Trace(workTable, name, url, jobSeq, fault)
      && LoadResult(db, workTable, jobSeq, fault, now) == WriteJobResult(db, jobSeq, Success, "", now)
  {
    var plan := Plan(workTable, name, url, jobSeq);
    PlanShape(workTable, name, url, jobSeq);
    var c := CommitAt(workTable);
    assert plan[..c + 1][SuccessAt(workTable)] == WriteResult(jobSeq, Success, "");
  }

  /**
    A failed delete of the manifest comes after `commit`: the data is loaded, yet the job is
    recorded as `failure` or `error`.
  */
  lemma FailedDeleteRecordsError(db: Db, workTable: bool, name: string, url: string, jobSeq: nat,
                                 f: Fault, now: int)
    requires f.at == PlanLength(workTable) - 1 && ErrorRecorded(f)
    ensures Commit in Trace(workTable, name, url, jobSeq, Some(f))
    ensures LoadResult(db, workTable, jobSeq, Some(f), now)
            == WriteJobResult(db, jobSeq, ErrorStatus(f), TruncateMessage(f.message).value, now)
  {
    var plan := Plan(workTable, name, url, jobSeq);
    PlanShape(workTable, name, url, jobSeq);
    assert plan[..f.at + 1][CommitAt(workTable)] == Commit;
    assert TruncateMessage(f.message).Some?;
    LastResultWins(db, jobSeq, Success, "", now, ErrorStatus(f), TruncateMessage(f.message).value, now);
  }

  /**
    The manifest stays in the bucket exactly when something raised after it was put; other
    objects of the bucket are untouched.
  */
  lemma ManifestLeftBehindIffRaised(objects: map<string, ManifestDoc>, name: string, doc: ManifestDoc,
                                    workTable: bool, fault: Option<Fault>)
    ensures var r := BucketAfter(objects, name, doc, workTable, fault);
      && (name in r <==> Hits(workTable, fault) && (fault.value.at > 0 || name in objects))
      && (Hits(workTable, fault) && fault.value.at > 0 ==> r[name] == doc)
      && forall k :: k != name ==> (k in r <==> k in objects) && (k in r ==> r[k] == objects[k])
  {
  }

  // ---------------------------------------------------------------------------------------
  // The loader
  // ---------------------------------------------------------------------------------------

  /** The parts of the loader parameters this model reads. */
  datatype LoaderParams = LoaderParams(taskSeq: nat, rerun: bool, enableWorkTable: bool, objectUrls: seq<string>)

  class Loader {
    const ctl: ControlStore
    const bucket: Bucket
    const journal: Journal
    const params: LoaderParams
    const processId: string
    var jobSeq: Option<nat>

    constructor(ctl: ControlStore, bucket: Bucket, journal: Journal, params: LoaderParams, processId: string)
      ensures this.ctl == ctl && this.bucket == bucket && this.journal == journal
      ensures this.params == params && this.processId == processId && jobSeq.None?
    {
      this.ctl := ctl;
      this.bucket := bucket;
      this.journal := journal;
      this.params := params;
      this.processId := processId;
      jobSeq := None;
    }

    /**
      `execute`: nothing at all happens after `assign_task` returns nil; otherwise the load
      issues exactly the requests of `Trace`, the control store receives their result writes,
      and the manifest is left behind exactly when `delete` is not reached or fails.
    */
    method Execute(fault: Option<Fault>, now: int) returns (outcome: Outcome)
      modifies this, ctl, bucket, journal
      ensures var a := AssignTask(old(ctl.db), params.taskSeq, params.rerun, processId, now);
        && jobSeq == a.jobSeq
        && (a.jobSeq.None? ==>
              && outcome == Skipped && ctl.db == old(ctl.db)
              && journal.entries == old(journal.entries) && bucket.objects == old(bucket.objects))
        && (a.jobSeq.Some? ==>
              var name := ManifestName(a.jobSeq.value);
              var tr := Trace(params.enableWorkTable, name, bucket.UrlOf(name), a.jobSeq.value, fault);
              && journal.entries == old(journal.entries) + tr
              && ctl.db == LoadResult(a.db, params.enableWorkTable, a.jobSeq.value, fault, now)
              && bucket.objects == BucketAfter(old(bucket.objects), name, Content(params.objectUrls),
                                               params.enableWorkTable, fault)
              && outcome == LoadOutcome(params.enableWorkTable, fault))
    {
      var a := AssignTask(ctl.db, params.taskSeq, params.rerun, processId, now);
      ctl.db := a.db;
      jobSeq := a.jobSeq;
      if jobSeq.None? {
        outcome := Skipped;
        return;
      }
      outcome := DoLoad(jobSeq.value, fault, now);
    }

    /** `do_load`: the manifest's put, the load, the manifest's delete, and the rescue clauses. */
    method DoLoad(j: nat, fault: Option<Fault>, now: int) returns (outcome: Outcome)
      modifies ctl, bucket, journal
      ensures journal.entries
              == old(journal.entries) + Trace(params.enableWorkTable, ManifestName(j), bucket.UrlOf(ManifestName(j)), j, fault)
      ensures ctl.db == LoadResult(old(ctl.db), params.enableWorkTable, j, fault, now)
      ensures bucket.objects == BucketAfter(old(bucket.objects), ManifestName(j), Content(params.objectUrls),
                                            params.enableWorkTable, fault)
      ensures outcome == LoadOutcome(params.enableWorkTable, fault)
    {
      ghost var w := params.enableWorkTable;
      ghost var name := ManifestName(j);
      ghost var plan := Plan(w, name, bucket.UrlOf(name), j);
      ghost var j0 := journal.entries;
      var raised := LoadWithManifest(j, fault, now);
      if raised {
        ghost var issued := RaisedAt(w, plan, fault.value.at);
        ghost var j1 := journal.entries;
        assert j1 == j0 + issued;
        outcome := WriteJobError(j, fault.value, now);
        AppendAssoc(j0, issued, ErrorWrites(j, fault.value));
        assert Trace(w, name, bucket.UrlOf(name), j, fault) == issued + ErrorWrites(j, fault.value);
      } else {
        assert Trace(w, name, bucket.UrlOf(name), j, fault) == plan;
        outcome := Completed;
      }
    }

    /**
      The block given to `ManifestFile.create`, with the put before it and the delete after it:
      it raises exactly when the fault hits, having issued the plan up to the raise.
    */
    method LoadWithManifest(j: nat, fault: Option<Fault>, now: int) returns (raised: bool)
      modifies ctl, bucket, journal
      ensures raised <==> Hits(params.enableWorkTable, fault)
      ensures !raised ==>
        journal.entries == old(journal.entries) + Plan(params.enableWorkTable, ManifestName(j), bucket.UrlOf(ManifestName(j)), j)
      ensures raised ==>
        journal.entries == old(journal.entries)
          + RaisedAt(params.enableWorkTable, Plan(params.enableWorkTable, ManifestName(j), bucket.UrlOf(ManifestName(j)), j),
                     fault.value.at)
      ensures ctl.db == (if raised && fault.value.at < SuccessAt(params.enableWorkTable) then old(ctl.db)
                         else WriteJobResult(old(ctl.db), j, Success, "", now))
      ensures bucket.objects
              == BucketAfter(old(bucket.objects), ManifestName(j), Content(params.objectUrls), params.enableWorkTable, fault)
    {
      var w := params.enableWorkTable;
      var manifest := new ManifestFile(bucket, journal, j, params.objectUrls);
      var name := manifest.Name();
      var url := manifest.Url();
      ghost var plan := Plan(w, name, url, j);
      ghost var j0 := journal.entries;
      PlanEnds(w, name, url, j);
      raised := manifest.Put(Fails(fault, 0));
      assert journal.entries == j0 + plan[..1];
      if raised {
        return;
      }
      raised := LoadThenDelete(manifest, j, name, url, fault, now);
      if raised {
        JournalJoin(j0, plan, 1, fault.value.at + 1,
                    if BeginAt(w) < fault.value.at < CommitAt(w) then [Rollback] else []);
      } else {
        JournalJoin(j0, plan, 1, |plan|, []);
        assert plan[..|plan|] == plan;
        PutThenRemove(old(bucket.objects), name, Content(params.objectUrls));
      }
    }

    /**
      The block given to `ManifestFile.create` and the delete after it, once the put has stored
      the manifest: the delete is reached only when the block does not raise.
    */
    method LoadThenDelete(manifest: ManifestFile, j: nat, name: string, url: string, fault: Option<Fault>, now: int)
      returns (raised: bool)
      requires manifest.Valid() && !manifest.noop
      requires manifest.bucket == bucket && manifest.journal == journal && manifest.jobSeq == j
      requires name == ManifestName(j) && url == bucket.UrlOf(name)
      modifies manifest, ctl, bucket, journal
      ensures var w := params.enableWorkTable;
        raised <==> fault.Some? && 1 <= fault.value.at < PlanLength(w) && fault.value.at != SuccessAt(w)
      ensures !raised ==>
        journal.entries == old(journal.entries) + Plan(params.enableWorkTable, name, url, j)[1..]
      ensures raised ==>
        var w := params.enableWorkTable;
        journal.entries == old(journal.entries) + Plan(w, name, url, j)[1..fault.value.at + 1]
                           + (if BeginAt(w) < fault.value.at < CommitAt(w) then [Rollback] else [])
      ensures ctl.db == (if raised && fault.value.at < SuccessAt(params.enableWorkTable) then old(ctl.db)
                         else WriteJobResult(old(ctl.db), j, Success, "", now))
      ensures bucket.objects == if raised then old(bucket.objects) else old(bucket.objects) - {name}
    {
      var w := params.enableWorkTable;
      ghost var plan := Plan(w, name, url, j);
      PlanEnds(w, name, url, j);
      raised := LoadBlock(j, name, url, fault, now);
      if raised {
        return;
      }
      raised := manifest.Delete(Fails(fault, PlanLength(w) - 1));
      assert plan[1..|plan| - 1] + [plan[|plan| - 1]] == plan[1..];
    }

    static predicate Fails(fault: Option<Fault>, at: nat)
    {
      fault.Some? && fault.value.at == at
    }

    /** The block given to `ManifestFile.create`: the load through the work table or directly. */
    method LoadBlock(j: nat, name: string, url: string, fault: Option<Fault>, now: int) returns (raised: bool)
      modifies ctl, journal
      ensures var w := params.enableWorkTable;
        raised <==> fault.Some? && 1 <= fault.value.at < PlanLength(w) - 1 && fault.value.at != SuccessAt(w)
      ensures !raised ==>
        journal.entries == old(journal.entries)
                           + Plan(params.enableWorkTable, name, url, j)[1..PlanLength(params.enableWorkTable) - 1]
      ensures raised ==>
        var w := params.enableWorkTable;
        journal.entries == old(journal.entries) + Plan(w, name, url, j)[1..fault.value.at + 1]
                           + (if BeginAt(w) < fault.value.at < CommitAt(w) then [Rollback] else [])
      ensures ctl.db == (if raised && fault.value.at < SuccessAt(params.enableWorkTable) then old(ctl.db)
                         else WriteJobResult(old(ctl.db), j, Success, "", now))
    {
      if params.enableWorkTable {
        raised := LoadViaWorkTable(j, name, url, fault, now);
      } else {
        raised := LoadDirect(j, name, url, fault, now);
      }
    }

    /**
      `prepare_work_table`, `load_objects` into the work table, then the transaction running
      `commit_work_table` and `commit_job_result`.
    */
    method LoadViaWorkTable(j: nat, name: string, url: string, fault: Option<Fault>, now: int) returns (raised: bool)
      modifies ctl, journal
      ensures raised <==> fault.Some? && 1 <= fault.value.at < 7 && fault.value.at != 5
      ensures !raised ==> journal.entries == old(journal.entries) + Plan(true, name, url, j)[1..7]
      ensures raised ==>
        journal.entries == old(journal.entries) + Plan(true, name, url, j)[1..fault.value.at + 1]
                           + (if BeginAt(true) < fault.value.at < CommitAt(true) then [Rollback] else [])
      ensures ctl.db == (if raised && fault.value.at < 5 then old(ctl.db)
                         else WriteJobResult(old(ctl.db), j, Success, "", now))
    {
      ghost var plan := Plan(true, name, url, j);
      ghost var j0 := journal.entries;
      raised := Issue(TruncateWorkTable, Fails(fault, 1));
      if raised {
        assert plan[1..2] == [TruncateWorkTable];
        return;
      }
      raised := Issue(CopyInto(WorkTable, url), Fails(fault, 2));
      assert plan[1..3] == [TruncateWorkTable, CopyInto(WorkTable, url)];
      if raised {
        return;
      }
      raised := Transaction(j, RunSqlSource, 3, fault, now);
      assert plan[3..7] == TransactionSteps(RunSqlSource, j);
      TransactionJoin(j0, plan, 3, 7, if raised then fault.value.at - 3 + 1 else 4);
    }

    /** The transaction running `load_objects` into the destination and `commit_job_result`. */
    method LoadDirect(j: nat, name: string, url: string, fault: Option<Fault>, now: int) returns (raised: bool)
      modifies ctl, journal
      ensures raised <==> fault.Some? && 1 <= fault.value.at < 5 && fault.value.at != 3
      ensures !raised ==> journal.entries == old(journal.entries) + Plan(false, name, url, j)[1..5]
      ensures raised ==>
        journal.entries == old(journal.entries) + Plan(false, name, url, j)[1..fault.value.at + 1]
                           + (if BeginAt(false) < fault.value.at < CommitAt(false) then [Rollback] else [])
      ensures ctl.db == (if raised && fault.value.at < 3 then old(ctl.db)
                         else WriteJobResult(old(ctl.db), j, Success, "", now))
    {
      ghost var plan := Plan(false, name, url, j);
      ghost var j0 := journal.entries;
      raised := Transaction(j, CopyInto(DestTable, url), 1, fault, now);
      assert plan[1..5] == TransactionSteps(CopyInto(DestTable, url), j);
      TransactionJoin(j0, plan, 1, 5, if raised then fault.value.at - 1 + 1 else 4);
    }

    /**
      `@connection.transaction { statement; commit_job_result }`: `begin`, the statement, the
      success write and `commit`, where `b` is the position of `begin` in the plan.  A raise by
      the statement rolls the transaction back; a failed `begin` or `commit` has nothing to roll
      back.
    */
    method Transaction(j: nat, statement: Effect, b: nat, fault: Option<Fault>, now: int) returns (raised: bool)
      modifies ctl, journal
      ensures raised <==> fault.Some? && (fault.value.at == b || fault.value.at == b + 1 || fault.value.at == b + 3)
      ensures !raised ==> journal.entries == old(journal.entries) + TransactionSteps(statement, j)
      ensures raised ==>
        journal.entries == old(journal.entries) + TransactionSteps(statement, j)[..fault.value.at - b + 1]
                           + (if fault.value.at == b + 1 then [Rollback] else [])
      ensures ctl.db == (if raised && fault.value.at <= b + 1 then old(ctl.db)
                         else WriteJobResult(old(ctl.db), j, Success, "", now))
    {
      ghost var steps := TransactionSteps(statement, j);
      raised := Issue(Begin, Fails(fault, b));
      if raised {
        assert steps[..1] + [] == [Begin];
        return;
      }
      raised := Issue(statement, Fails(fault, b + 1));
      if raised {
        journal.Append(Rollback);
        assert steps[..2] == [Begin, statement];
        return;
      }
      CommitJobResult(j, now);
      raised := Issue(Commit, Fails(fault, b + 3));
      assert steps[..4] + [] == steps;
    }

    /** Issues one warehouse request; `fails` says whether it raises. */
    method Issue(e: Effect, fails: bool) returns (raised: bool)
      modifies journal
      ensures journal.entries == old(journal.entries) + [e] && raised == fails
    {
      journal.Append(e);
      raised := fails;
    }

    /** `write_job_result`: one update of this job's row in the control store. */
    method RecordResult(j: nat, status: Status, message: string, now: int) returns (raised: bool)
      modifies ctl, journal
      ensures raised == HasQuote(message)
      ensures ctl.db == WriteJobResult(old(ctl.db), j, status, message, now)
      ensures journal.entries == old(journal.entries) + [WriteResult(j, status, message)]
    {
      journal.Append(WriteResult(j, status, message));
      raised := '\'' in message;
      if !raised {
        ctl.db := WriteJobResult(ctl.db, j, status, message, now);
      }
    }

    /** `commit_job_result`: records `success` with the empty message. */
    method CommitJobResult(j: nat, now: int)
      modifies ctl, journal
      ensures ctl.db == WriteJobResult(old(ctl.db), j, Success, "", now)
      ensures journal.entries == old(journal.entries) + [WriteResult(j, Success, "")]
    {
      var raised := RecordResult(j, Success, "", now);
    }

    /**
      `write_job_error`: records the truncated message; raises instead when the message has no
      first line or the update breaks on a quote.
    */
    method WriteJobError(j: nat, f: Fault, now: int) returns (outcome: Outcome)
      modifies ctl, journal
      ensures journal.entries == old(journal.entries) + ErrorWrites(j, f)
      ensures ctl.db == (if f.message == [] then old(ctl.db)
                         else WriteJobResult(old(ctl.db), j, ErrorStatus(f), TruncateMessage(f.message).value, now))
      ensures outcome == (if !ErrorRecorded(f) then RecordFailed else Reraised(f.jobFailure, f.message))
    {
      var m := TruncateMessage(f.message);
      if m.None? {
        return RecordFailed;
      }
      var raised := RecordResult(j, ErrorStatus(f), m.value, now);
      outcome := if raised then RecordFailed else Reraised(f.jobFailure, f.message);
    }
  }
}
