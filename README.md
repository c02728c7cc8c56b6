# Streaming loader bookkeeping, modelled in Dafny

This project models the core of bricolage's streaming loader. Objects arrive in an S3
bucket and are announced by events. They are batched into load tasks, claimed by loaders as
jobs, loaded into Redshift through a temporary manifest, and the job's result is recorded.
Almost all of this bookkeeping is written as SQL against a PostgreSQL control store. The model
represents that store as a datatype value and each SQL statement (or transaction) as one pure
transition function on it. The Ruby objects that run the statements become classes holding the
state. Each of their methods is proved to leave exactly the state that the transition functions
give, and lemmas prove the properties of those functions.

Modules, one per concern:

- `Wrappers`, `Seqs`, `Names`: `Option` (SQL NULL, Ruby nil), regrouping facts about
  sequence concatenation, and the `schema.table` names with their inverse.
- `Windowing`: the batching engine. Object rows, task rows and `strload_task_objects`
  rows, generic in the key of a destination. It covers the task cut of `insert_tasks`, the fill
  of `insert_task_objects` / `insert_task_object_mappings` and the store invariant. The same SQL
  appears in both schema generations, so one model serves both. The first generation keys
  destinations by (schema, table) and uses `submit_time`; the second keys them by `source_id`
  and uses `registration_time`.
- `ObjectStores`: the first generation (`objectstore.rb`), class `ObjectStore`.
- `ControlStores`: the second-generation store, shared by the object buffer, the task claim and
  the loader, including `strload_jobs`.
- `ObjectBuffers`: `objectbuffer.rb`, class `ObjectBuffer`.
- `LoadTasks`: `LoadTask.load`. It claims the earliest claimable task, then fetches this
  loader's latest running job and the urls of its objects.
- `Effects`, `Manifests`: the journal of requests to the outside world, and `ManifestFile`.
- `Loaders`: `Loader`: `assign_task`, `do_load` along its two paths, and the result writes.
  Exceptions are injected as a `Fault` naming the request that raises.
- `Dispatchers`: `Dispatcher`: event handlers, with every queue and store call recorded in
  order.
- `LoaderServices`: `LoaderService`: the poll loop with exponential back-off and the
  terminate flag.

Time is an integer number of seconds passed in as `now` (or kept as `clock` by the loader
service). The loader and process ids derived from the host name and pid are parameters.

## Model

| member | source | states |
|---|---|---|
| Names.SplitQualifiedName | lib/bricolage/streamingload/objectstore.rb:30-32 | splitting `schema.table` at its first dot gives back schema and table when the schema has no dot |
| Names.QualifiedNameInjective | lib/bricolage/streamingload/objectbuffer.rb:75 | different (schema, table) pairs without a dot in the schema never share a `source_id` |
| ObjectStores.DataSourceId | lib/bricolage/streamingload/objectstore.rb:30-32 | the data source id is the schema name, one dot, then the table name |
| ObjectStores.SourceTable | lib/bricolage/streamingload/objectstore.rb:85-88 | the lookup answers a table row registered under the id, and none only when no row carries it |
| ObjectStores.InsertObjectSpec | lib/bricolage/streamingload/objectstore.rb:70-92 | no row when the url is known or the data source is unregistered; otherwise exactly one new row with the url, size, time and next `object_seq`, destined to a table registered under the id; tasks, mappings and tables untouched |
| ObjectStores.InsertObjectIdempotent | lib/bricolage/streamingload/objectstore.rb:89 | storing the same object twice gives the state of storing it once |
| ObjectStores.InsertObjectValid | lib/bricolage/streamingload/objectstore.rb:70-92 | `insert_object` keeps the store invariant |
| ObjectStores.ObjectStore.constructor | lib/bricolage/streamingload/objectstore.rb:46-49 | the store starts on the given control-store state |
| ObjectStores.ObjectStore.Store | lib/bricolage/streamingload/objectstore.rb:51-55 | the new state is `insert_object` applied to the old one, and the invariant holds |
| ObjectStores.ObjectStore.AssignObjectsToTasks | lib/bricolage/streamingload/objectstore.rb:57-66 | one transaction of cut then fill; answers the created `task_seq` values, in the order the model numbers them; the invariant holds |
| Windowing.Pending | lib/bricolage/streamingload/objectstore.rb:111-115 | an object is pending for a destination exactly when it belongs to it and has no task |
| Windowing.LatestSubmit | lib/bricolage/streamingload/objectstore.rb:120-130 | `max(submit_time)` of the destination's tasks; NULL exactly when it has none |
| Windowing.DueKeys | lib/bricolage/streamingload/objectstore.rb:94-137 | a destination gets a new task exactly when some table row for it is due |
| Windowing.DueKeysDistinct | lib/bricolage/streamingload/objectbuffer.rb:104-119 | one table row per destination means at most one new task per destination |
| Windowing.InsertTasksAppends | lib/bricolage/streamingload/objectstore.rb:94-102 | existing task rows are kept; the new ones follow with consecutive `task_seq`, one per due destination, numbered in table-row order, and time now |
| Windowing.InsertTasksCreates | lib/bricolage/streamingload/objectstore.rb:94-142 | objects and mappings untouched; old task rows kept; the returned `task_seq` values are the new rows' numbers, none below the serial's next value; at most one new row per table, each for a different destination, submitted now |
| Windowing.NewTaskIffDue | lib/bricolage/streamingload/objectbuffer.rb:95-137 | a new task row for a destination exists exactly when the destination is due |
| Windowing.CutIff | lib/bricolage/streamingload/objectstore.rb:131-137 | a task is cut exactly when the table is enabled, has unassigned objects, and its count exceeds the batch size, or its latest task is older than the interval, or it has no task (all strict) |
| Windowing.InsertTasksValid | lib/bricolage/streamingload/objectbuffer.rb:95-139 | `insert_tasks` keeps the store invariant |
| Windowing.AppendObjectRecords | lib/bricolage/streamingload/objectbuffer.rb:76-91 | the insert appends exactly one row, numbered by the serial, and the url is then known |
| Windowing.AppendObjectValid | lib/bricolage/streamingload/objectbuffer.rb:74-93 | appending an object with a new url keeps the invariant |
| Windowing.OldestEmptyTask | lib/bricolage/streamingload/objectstore.rb:160-175 | answers a task of the destination with no mapped object, and none only when every such task is mapped |
| Windowing.OldestEmptyTaskIsOldest | lib/bricolage/streamingload/objectstore.rb:162 | the chosen task has the smallest `task_seq` among the empty tasks of its destination |
| Windowing.PendingAscending | lib/bricolage/streamingload/objectstore.rb:154 | the unassigned objects of a destination come in ascending `object_seq` |
| Windowing.FillForFacts | lib/bricolage/streamingload/objectbuffer.rb:156-178 | one table's rows map unassigned objects of that destination to an empty task of the same destination, never an object twice, never more than the batch size |
| Windowing.FillRowsFacts | lib/bricolage/streamingload/objectbuffer.rb:168 | across all tables no object is mapped twice, and no task exceeds its table's batch size |
| Windowing.FillValid | lib/bricolage/streamingload/objectstore.rb:145-186 | the fill keeps the invariant: no double assignment, capacity, well-formed mappings |
| Windowing.CutAndFillValid | lib/bricolage/streamingload/objectbuffer.rb:59-66 | the cut-then-fill transaction keeps the invariant |
| Windowing.FillOnlyOldest | lib/bricolage/streamingload/objectstore.rb:160-175 | every new mapping goes to a task that was empty and is the oldest empty task of its destination |
| Windowing.FillTakesOldestObjects | lib/bricolage/streamingload/objectstore.rb:150-183 | an unassigned object is mapped exactly when its destination has an empty task and it is among the first `load_batch_size` by `object_seq`; those go to the oldest empty task |
| Windowing.CutAndFillSpec | lib/bricolage/streamingload/objectstore.rb:57-66 | after the whole transaction, a destination just given a task always has an empty task, its first `load_batch_size` unassigned objects go to the oldest empty task, the rest stay unassigned, and no object row changes |
| Windowing.NewTaskIsEmpty | lib/bricolage/streamingload/objectstore.rb:171 | a task just cut has no mapped object yet |
| ControlStores.AppendJobConsistent | lib/bricolage/streamingload/task.rb:13-41 | inserting a job for an existing task keeps the invariant, and the task then has a job |
| ObjectBuffers.QualifiedName | lib/bricolage/streamingload/objectbuffer.rb:30-32 | the `source_id` is the schema name, one dot, then the table name |
| ObjectBuffers.InsertObjectSpec | lib/bricolage/streamingload/objectbuffer.rb:74-92 | no row when the url is known or the `source_id` is unregistered; otherwise exactly the row (next `object_seq`, `source_id`, url, size, now) appended; nothing else changes |
| ObjectBuffers.InsertObjectIdempotent | lib/bricolage/streamingload/objectbuffer.rb:89 | putting the same object twice gives the state of putting it once |
| ObjectBuffers.InsertObjectConsistent | lib/bricolage/streamingload/objectbuffer.rb:74-92 | `insert_object` keeps the invariant |
| ObjectBuffers.FlushConsistent | lib/bricolage/streamingload/objectbuffer.rb:59-66 | `flush` keeps the invariant, adds no object row, keeps the jobs and only appends task rows |
| ObjectBuffers.ObjectBuffer.constructor | lib/bricolage/streamingload/objectbuffer.rb:44-51 | the flush interval defaults to 60 and is fixed |
| ObjectBuffers.ObjectBuffer.Put | lib/bricolage/streamingload/objectbuffer.rb:53-57 | the new state is `insert_object` applied to the old one, and the invariant holds |
| ObjectBuffers.ObjectBuffer.Flush | lib/bricolage/streamingload/objectbuffer.rb:59-66 | the new state is `insert_tasks` then `insert_task_objects` on the old one, and the invariant holds |
| LoadTasks.LoadTask.QualifiedName | lib/bricolage/streamingload/task.rb:96-98 | schema, one dot, table |
| LoadTasks.EarliestClaimableSpec | lib/bricolage/streamingload/task.rb:34-39 | the selected task is claimable (no job at all, table enabled), registered no later than any other claimable task, and none is selected only when none is claimable |
| LoadTasks.ClaimSpec | lib/bricolage/streamingload/task.rb:13-41 | at most one job row is inserted and nothing else changes; none exactly when no task is claimable; else a `running` job carrying this `loader_id` and no `process_id`, started now, without result, for the earliest claimable task |
| LoadTasks.ClaimConsistent | lib/bricolage/streamingload/task.rb:13-41 | the claim keeps the invariant |
| LoadTasks.LatestIgnoresUnfetchable | lib/bricolage/streamingload/task.rb:42-65 | appending a job row that is not a running job of this `loader_id` with a joinable task leaves the latest running job unchanged |
| LoadTasks.LatestRunningJobSpec | lib/bricolage/streamingload/task.rb:42-64 | the selected job is a running job of this loader whose task and table join, started no earlier than any other; none only when there is none |
| LoadTasks.ObjectUrlsDistinct | lib/bricolage/streamingload/task.rb:67-78 | with distinct urls among the object rows, no url is collected twice |
| LoadTasks.ObjectUrlsSpec | lib/bricolage/streamingload/task.rb:67-78 | the collected urls are exactly those of the objects mapped to the task |
| LoadTasks.FetchSpec | lib/bricolage/streamingload/task.rb:42-80 | nil exactly when no running job carries this `loader_id` and joins its task and table; otherwise the latest such job's task, its source, schema and table, and exactly the mapped urls, each once under the store invariant |
| LoadTasks.Load | lib/bricolage/streamingload/task.rb:12-81 | the store after the call is the claim's state, and the answer is the fetch on that state |
| LoadTasks.ClaimThenFetchFindsJob | lib/bricolage/streamingload/task.rb:12-66 | when some task is claimable, `load` never answers nil |
| Loaders.AssignTaskSpec | lib/bricolage/streamingload/loader.rb:35-59 | a `job_seq` is returned exactly when the task exists and has no job or rerun is set; then one `running` job carrying this `process_id` and no `loader_id`, under a number above all existing ones, is appended, else nothing changes |
| Loaders.SecondAssignRefused | lib/bricolage/streamingload/loader.rb:53 | without rerun a task assigned once is never assigned again |
| Loaders.ClaimThenAssignRefused | lib/bricolage/streamingload/loader.rb:53 | after `LoadTask.load` claimed a task, `assign_task` for that task without rerun inserts nothing and answers nil |
| Loaders.AssignedJobNeverFetched | lib/bricolage/streamingload/loader.rb:37-49 | the job `assign_task` inserts has no `loader_id`, so `LoadTask.load`'s fetch (task.rb:57) never finds it: the fetch answers the same as before the insert |
| Loaders.FirstLineFacts | lib/bricolage/streamingload/loader.rb:122 | `lines.first` is a prefix that ends at the first line feed, or the whole string |
| Loaders.StripStartFacts | lib/bricolage/streamingload/loader.rb:122 | the left half of `strip` removes exactly the leading whitespace and NULs |
| Loaders.StripEndFacts | lib/bricolage/streamingload/loader.rb:122 | the right half of `strip` removes exactly the trailing whitespace and NULs |
| Loaders.StripPosition | lib/bricolage/streamingload/loader.rb:122 | `strip` answers the piece of its input between a run of leading and a run of trailing whitespace and NULs |
| Loaders.StrippedLinePosition | lib/bricolage/streamingload/loader.rb:122 | the stripped first line sits inside the first line of the message, with only whitespace and NULs before and after it there |
| Loaders.RecordedFromUnique | lib/bricolage/streamingload/loader.rb:122 | at most one text is the first line's content after its leading whitespace, up to its last non-whitespace character, cut to 1000 characters |
| Loaders.TruncateMessageSpec | lib/bricolage/streamingload/loader.rb:118-122 | nil exactly for the empty message; otherwise the one text that is the first line's content after its leading whitespace and NULs, up to its last other character, cut to its first 1000 characters |
| Loaders.TruncateMessageKeepsCleanLine | lib/bricolage/streamingload/loader.rb:122 | a clean single line of at most 1000 characters is recorded verbatim |
| Loaders.FirstLineOnly | lib/bricolage/streamingload/loader.rb:122 | nothing after the first line feed influences the recorded message |
| Loaders.WriteJobResultSpec | lib/bricolage/streamingload/loader.rb:125-137 | a message with a quote breaks the unescaped `update` and changes nothing; otherwise only rows with this `job_seq` change, and there only status, finish time and message; the invariant holds |
| Loaders.LastResultWins | lib/bricolage/streamingload/loader.rb:125-137 | a second result write for a job overwrites the first, unless its message holds a quote and the first stays |
| Loaders.PlanShape | lib/bricolage/streamingload/loader.rb:61-81 | the fault-free requests put the manifest first and delete it last; `success` is written once, inside the transaction, right before `commit` |
| Loaders.TraceReplaysToLoadResult | lib/bricolage/streamingload/loader.rb:61-88 | for every fault, the control store after the load is the replay of the result writes among the issued requests |
| Loaders.LoadRecordsStatus | lib/bricolage/streamingload/loader.rb:82-87 | the job row ends `success` with an empty message when nothing raises; `failure` for a `JobFailure` and `error` otherwise, with the truncated message; when the rescue's message is empty or its truncated text holds a quote it keeps what it had; nothing else changes |
| Loaders.RollbackIffInsideTransaction | lib/bricolage/streamingload/loader.rb:71-79 | a rollback is issued exactly when the raising request lies strictly between `begin` and `commit` |
| Loaders.FailedCommitKeepsSuccess | lib/bricolage/streamingload/loader.rb:71-74 | when `commit` raises with an empty message, the job stays recorded as `success` |
| Loaders.FailedDeleteRecordsError | lib/bricolage/streamingload/loader.rb:82-87 | a failed manifest delete comes after `commit`, yet the job is recorded as `failure` or `error` whenever the error text can be written |
| Loaders.ManifestLeftBehindIffRaised | lib/bricolage/streamingload/loader.rb:62-81 | the manifest stays in the bucket exactly when something raised after its put; other bucket objects are untouched |
| Loaders.Loader.constructor | lib/bricolage/streamingload/loader.rb:19-24 | a loader starts with no `job_seq` |
| Loaders.Loader.Execute | lib/bricolage/streamingload/loader.rb:26-33 | nil from `assign_task` means no request, no write, no bucket change; otherwise exactly the requests of the trace, the replayed result, the bucket and the outcome |
| Loaders.Loader.DoLoad | lib/bricolage/streamingload/loader.rb:61-88 | the journal grows by the trace of the fault, the store becomes the load result, and the outcome is re-raise, record failure or completion |
| Loaders.Loader.LoadWithManifest | lib/bricolage/streamingload/loader.rb:62-81 | raises exactly when the fault hits; the requests are the plan up to the raise plus a rollback inside the transaction; `success` is written once reached; the bucket is as stated |
| Loaders.Loader.LoadThenDelete | lib/bricolage/streamingload/manifest.rb:54-55 | after the put, the block runs and the delete follows only when the block did not raise |
| Loaders.Loader.LoadBlock | lib/bricolage/streamingload/loader.rb:68-80 | the block issues the middle of the plan, choosing the work-table or the direct path |
| Loaders.Loader.LoadViaWorkTable | lib/bricolage/streamingload/loader.rb:68-74 | truncate, copy into the work table, then one transaction of `sql_source` and the success write |
| Loaders.Loader.LoadDirect | lib/bricolage/streamingload/loader.rb:76-79 | the copy into the destination and the success write run in one transaction |
| Loaders.Loader.Transaction | lib/bricolage/streamingload/loader.rb:71-74 | `begin`, statement, success write, `commit`; a raising statement is rolled back, and `success` is written only after the statement succeeded |
| Loaders.Loader.RecordResult | lib/bricolage/streamingload/loader.rb:125-137 | one update of this job's row, journalled; it raises, and the row stays, exactly when the message holds a quote |
| Loaders.Loader.CommitJobResult | lib/bricolage/streamingload/loader.rb:113-116 | records `success` with the empty message |
| Loaders.Loader.WriteJobError | lib/bricolage/streamingload/loader.rb:120-123 | records the status with the truncated message, or records nothing and fails when the message is empty or its truncated text holds a quote |
| Manifests.Content | lib/bricolage/streamingload/manifest.rb:32-40 | one mandatory entry per url, in input order |
| Manifests.ContentRoundTrip | lib/bricolage/streamingload/manifest.rb:32-40 | reading the urls back from the entries gives the input list |
| Manifests.DecimalRoundTrip | lib/bricolage/streamingload/manifest.rb:25 | the interpolated job number reads back as the number |
| Manifests.ManifestName | lib/bricolage/streamingload/manifest.rb:24-26 | `manifest-`, the decimal job number, `.json` |
| Manifests.ManifestNameInjective | lib/bricolage/streamingload/manifest.rb:24-26 | different jobs never share a manifest name |
| Manifests.ManifestFile.constructor | lib/bricolage/streamingload/manifest.rb:12-18 | nothing is memoised yet |
| Manifests.ManifestFile.Name | lib/bricolage/streamingload/manifest.rb:24-26 | the name, memoised, stable afterwards |
| Manifests.ManifestFile.Url | lib/bricolage/streamingload/manifest.rb:28-30 | the bucket url of the name, memoised |
| Manifests.ManifestFile.GetContent | lib/bricolage/streamingload/manifest.rb:32-40 | the content, memoised |
| Manifests.ManifestFile.Put | lib/bricolage/streamingload/manifest.rb:42-45 | without `noop` one put of the content under the name; with `noop` nothing is issued |
| Manifests.ManifestFile.Delete | lib/bricolage/streamingload/manifest.rb:47-50 | without `noop` one delete of the same name; with `noop` nothing is issued |
| Manifests.ManifestFile.CreateTemporary | lib/bricolage/streamingload/manifest.rb:52-56 | put, block, delete; a failed put stores nothing and skips the rest; a raising block or a failed delete leaves the manifest behind |
| Dispatchers.HandledTickIsStale | lib/bricolage/streamingload/dispatcher.rb:110-113 | with unique message ids, a tick followed by a later tick is never the current timer, so its redelivery is stale |
| Dispatchers.Dispatcher.constructor | lib/bricolage/streamingload/dispatcher.rb:72-80 | no timer yet and nothing called |
| Dispatchers.Dispatcher.HandleShutdown | lib/bricolage/streamingload/dispatcher.rb:86-89 | request termination, then delete the event; the timer is kept |
| Dispatchers.Dispatcher.HandleData | lib/bricolage/streamingload/dispatcher.rb:91-99 | a non-creation is only deleted, store untouched; a creation is stored first and deleted only when `store` returned |
| Dispatchers.Dispatcher.HandleDispatch | lib/bricolage/streamingload/dispatcher.rb:101-108 | a current tick assigns, puts every created task in order, restarts the timer and then deletes; any other tick is only deleted |
| Dispatchers.Dispatcher.Dispatch | lib/bricolage/streamingload/dispatcher.rb:102-106 | assign, put the created tasks, restart the timer, in that order |
| Dispatchers.Dispatcher.PutTasks | lib/bricolage/streamingload/dispatcher.rb:104 | one put per task, in order |
| Dispatchers.Dispatcher.SetDispatchTimer | lib/bricolage/streamingload/dispatcher.rb:110-113 | a tick delayed by the interval is sent and becomes the current timer |
| Dispatchers.Dispatcher.DeleteEvent | lib/bricolage/streamingload/dispatcher.rb:107 | one delete of the event; the timer is kept |
| Dispatchers.Dispatcher.DeleteEvents | lib/bricolage/streamingload/dispatcher.rb:115-119 | every event deleted once, in order |
| LoaderServices.WaitBounds | lib/bricolage/streamingload/loaderservice.rb:125-129 | the sleep lasts 1 to 64 seconds, 1 after a found task, and 64 exactly from the sixth empty poll on |
| LoaderServices.WaitMonotone | lib/bricolage/streamingload/loaderservice.rb:126 | more empty polls never shorten the sleep |
| LoaderServices.NZerosIsTrailingRun | lib/bricolage/streamingload/loaderservice.rb:84-89 | `n_zero` is the length of the run of empty polls since the last found task |
| LoaderServices.NZerosStep | lib/bricolage/streamingload/loaderservice.rb:84-89 | a found task resets `n_zero`, an empty poll increments it |
| LoaderServices.FirstWaitIsOneSecond | lib/bricolage/streamingload/loaderservice.rb:80-83 | the first iteration sleeps one second before polling |
| LoaderServices.SleepsBounded | lib/bricolage/streamingload/loaderservice.rb:82 | every sleep of the loop lasts 1 to 64 seconds |
| LoaderServices.ScheduleLength | lib/bricolage/streamingload/loaderservice.rb:81-90 | the schedule has two actions per iteration plus one per found task |
| LoaderServices.SchedulePrefix | lib/bricolage/streamingload/loaderservice.rb:81-90 | the schedule of fewer polls is a prefix of the schedule of more |
| LoaderServices.ScheduleIterations | lib/bricolage/streamingload/loaderservice.rb:81-90 | iteration k, at offset 2k plus the tasks found before it, is the sleep for the current `n_zero`, the poll, and the run of the found task when there is one |
| LoaderServices.SleptBounds | lib/bricolage/streamingload/loaderservice.rb:82 | n iterations sleep between n and 64n seconds |
| LoaderServices.LoaderService.constructor | lib/bricolage/streamingload/loaderservice.rb:66-72 | not terminating, nothing done |
| LoaderServices.LoaderService.InitiateTerminate | lib/bricolage/streamingload/loaderservice.rb:117-123 | sets the flag; nothing else |
| LoaderServices.LoaderService.Wait | lib/bricolage/streamingload/loaderservice.rb:125-129 | sleeps `2^min(n_zero, 6)` seconds |
| LoaderServices.LoaderService.GetTask | lib/bricolage/streamingload/loaderservice.rb:94-96 | one claim at the current time, then the fetch; the invariant holds |
| LoaderServices.LoaderService.Execute | lib/bricolage/streamingload/loaderservice.rb:98-102 | hands the task over, recorded as a run; raises exactly when the loader's `execute` does, with no rescue |
| LoaderServices.LoaderService.Iterate | lib/bricolage/streamingload/loaderservice.rb:81-89 | one iteration: the sleep for `n_zero`, the poll, and the run of a found task; it raises exactly when that run raises |
| LoaderServices.LoaderService.LoadLoop | lib/bricolage/streamingload/loaderservice.rb:78-92 | the loop ends either with the flag set, after the iteration during which it was set (none if it was set before), or with the flag clear right after the run of iteration `failAt` raises, when that iteration comes no later and finds a task; the number of iterations is stated for each exit; every iteration sleeps, polls, and runs a found task; the clock advances by the sleeps; the invariant holds |

## Left out

- I/O and transport are recorded as calls or journal entries and not carried out: the SQS
  handler loop, `send_message` and `delete_message`, the S3 put and delete, the Redshift `copy`
  text, credential and option strings, connection handling, and logging.
- `gen_random_uuid`, `enable_pgcrypto` and the uuid columns (`id`, `task_id`, `job_id`) are
  not modelled.
- The host-name/pid loader id and process id are a parameter.
- `@ds.url(name)` is modelled as the bucket's url prefix followed by the name.
- The JSON layout of the manifest is not modelled; the document is modelled as its list of
  entries.
- `LoaderParams`, `Event`, `URLPatterns` and `SQLUtils` are not part of this model. A data event
  carries the already resolved object, and the loader reads the task number, the rerun flag,
  the work-table switch and the object urls from a plain value.
- `lib/bricolage/streamingload/targettable.rb` is not part of this model. Neither are
  `LoaderService#execute_task` (it calls an undefined `LoadTask.load_by_id`), `main`, the
  option classes, log and pid files, and daemonising. The terminate signal is modelled by the
  iteration (`signalAt`) during which the flag is set.
- Concurrency: each SQL statement or transaction is one atomic step, and no interleaving with
  other processes is modelled. Transaction isolation and rollback of the control store are not
  modelled. Every control-store write is taken to succeed except one whose message holds a quote, so a
  fault placed on the success write raises nothing.
- A message whose quotes still form valid SQL (a doubled quote, or text crafted as SQL) is
  treated like any other quote: the update is taken to fail.
- SQL leaves ties of `order by registration_time` and `order by start_time desc` open. The
  model picks the first task in row order and the last job in row order.
- The `insert into strload_tasks ... select` of `insert_tasks` has no `order by`, so SQL leaves
  open which due destination receives which new `task_seq`. The model numbers the new tasks in
  table-row order.
- The first generation's lookup takes the first table row with the data source id.
  `SourceIdsDistinct` in the invariant keeps these ids unique.
- The loader service's `clock` advances only by the sleeps: polls and loads take no time, so
  the `start_time` a claim writes is the clock after the sleeps so far, where the service uses
  the database's `current_timestamp`. No proved property depends on the start times beyond
  their order.
- `@end_time` is set but never read, so it is not modelled.
- LoaderServices.LoaderService.Execute: records the hand-over and does not run the `Loader`;
  whether the loader raises is the parameter `fails`.
  What the loader writes to the store is stated separately, by `Loaders.Loader.Execute`.
- LoaderServices.LoaderService.Iterate: does not state the new store or which task the poll
  answers (the claim at the clock after the sleep, then the fetch on it). `GetTask`, which it
  calls, states both; carrying them in `Iterate`'s contract as well makes the proof of
  `LoadLoop` too costly for the verifier.
- LoaderServices.LoaderService.LoadLoop: does not state which task each poll answers. Other
  loaders and the dispatcher share the control store, and the executed loads write to it, so
  the answers are returned as `polls` and related to the iterations, not to the initial state.
  Each single poll is stated by `GetTask`.
- Dispatchers.Dispatcher.HandleData: only a failing `store` is modelled. Failures of the queue
  calls, and of `assign_objects_to_tasks` in `HandleDispatch`, are not modelled.

## Notes on the code

These follow the Ruby code as written:

- `commit_job_result` writes `success` through its own control-store connection, inside the
  warehouse transaction and before `commit`. A `commit` that then raises is recorded as
  `failure`/`error` over it (`FailedCommitKeepsSuccess`, `LoadRecordsStatus`).
- `write_job_result` pastes the message into `'...'` unescaped. A message holding a quote
  breaks the `update`: the row keeps `running` or `success`, and the database error replaces
  the original one (`RecordResult`, `WriteJobError`, `LoadRecordsStatus`).
- `assign_task` inserts its job with `process_id` and no `loader_id`, while `LoadTask.load`
  fetches by `loader_id` only, so a job inserted by `assign_task` is never fetched
  (`AssignedJobNeverFetched`).
- With an empty message, `"".lines.first` is nil and the rescue raises before writing, so the
  row keeps `running` or `success` (`RecordFailed`).
- A manifest delete that fails after `commit` records `error` for loaded data
  (`FailedDeleteRecordsError`).
- `assign_objects_to_tasks` ends with `LoadTask.create(task_seq: seq)`, but `LoadTask` in
  `task.rb` defines only `load` and `initialize`. As written, the call raises `NoMethodError`
  whenever the cut created a task, after the transaction committed, and `handle_dispatch` then
  puts no task, restarts no timer and deletes no tick. The model takes `create` to wrap each
  `task_seq` and answers the numbers (`AssignObjectsToTasks`, `HandleDispatch`).
- `create_temporary` has no `ensure`, so the manifest stays behind whenever the block raises
  (`CreateTemporary`, `ManifestLeftBehindIffRaised`).
