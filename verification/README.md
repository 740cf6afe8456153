# Watchtower queue supervision, modelled in Dafny

Watchtower is a Laravel package that supervises queue workers and keeps a record of every
queue job it sees. This project models its core:

- the worker process loop (`watchtower:worker`);
- the worker manager that starts, stops, pauses and cleans up workers;
- the supervisor that keeps each configured fleet at its minimum size;
- the restart command;
- the two tables (`watchtower_workers`, `watchtower_jobs`) and their model scopes;
- the job monitor's queue-event listeners;
- the failed-jobs retry and delete actions;
- the prune command;
- the metrics collector.

State is immutable data.
- The worker table is a `seq<Worker>` in primary-key order. `WorkerModel.UniqueIds` states
  its unique `worker_id` index.
- The job table is `JobTable(rows, nextId)`. `JobModel.WellFormed` states the unique
  `job_id` index and the growing auto-increment key.
- Redis is `map<string, Entry>`: each value with the expiry it was given.
- `Store.World` pairs the worker table with Redis.

Everything the code asks of the environment becomes a parameter:
- the clock (`now`, integer seconds, UTC);
- the set of live pids (what `posix_kill($pid, 0)` answers);
- the UUIDs and pids a start yields (`Spawn`);
- memory usage, and whether a job throws (`Tick`);
- `uniqid`'s suffix and `json_decode`;
- the operator's answer to a confirmation prompt.

Every listener, pass or handler that catches and reports its exceptions is a total function
here. The exception's effect appears as an explicit outcome:
- a job id whose `(string)` cast throws writes nothing;
- a duplicate key writes nothing;
- a supervisor pass with no queues that has to scale up stops after cleanup.

Modules follow the source layout:

| module | file | models |
|---|---|---|
| Prelude, Decimal | prelude.dfy, decimal.dfy | `Option`, selection and counting; decimal text of integers (`(string)` / `(int)` casts) |
| CommandLine | command_line.dfy | the argument vector `startWorker` builds, as the worker reads it back |
| ControlChannel, Store | control_channel.dfy, store.dfy | Redis key space, command tokens and keys; the shared world |
| WorkerModel | worker_model.dfy | `Models/Worker.php` and the workers table |
| WorkerManager | worker_manager.dfy | `Services/WorkerManager.php` |
| WorkerRuntime | worker_runtime.dfy | `Commands/WorkerCommand.php` |
| Supervisor | supervisor.dfy | `Commands/SupervisorCommand.php` |
| Restart | restart.dfy | `Commands/RestartCommand.php` |
| JobModel | job_model.dfy | `Models/Job.php` and the jobs table |
| JobMonitor | job_monitor.dfy | `Services/JobMonitor.php` |
| FailedJobs | failed_jobs.dfy | `Http/Controllers/FailedJobsController.php` retry and destroy |
| Prune | prune.dfy | `Commands/PruneJobsCommand.php` |
| Metrics | metrics.dfy | `Services/MetricsCollector.php` |
| Scenarios | scenarios.dfy | consequences spanning several components |

The model follows the code, including where it does less than its names and comments suggest:
- **Replacement condition.** The supervisor decides whether to replace a dead worker from the
  count taken before any start (`$runningWorkers->count()`, which the loop never
  re-queries). When that count is above `min_processes`, dead workers are marked stopped but
  not replaced, so the fleet can drop below the minimum (`Scenarios.FleetCanDipBelowMinimum`).
- **No restarting status.** There is no `restarting` worker status.
- **`restart` and `terminate` do nothing.** A worker reads and deletes these commands, then
  carries on unchanged, so `watchtower:restart` has no effect on a running worker
  (`Restart.SignalledWorkerKeepsRunning`).
- **`max_processes` and `balance` are unused.** A pass never reads them
  (`Supervisor.MaxAndBalanceUnused`), although the configuration comments at
  `config/watchtower.php:128-131` describe `simple` and `auto` balancing.
- **`*` is a plain queue name.** The configuration comment at `config/watchtower.php:124-125`
  says `*` auto-discovers all queues; nothing in the code expands it.
- **The supervisor loop never ends by itself.** `$running` is protected, nothing in the
  package clears it and no signal handler is installed, so the `terminateAllWorkers` call after
  the loop is never reached.
- **A worker overwrites its supervisor's name.** A worker registers itself with supervisor
  `default`, overwriting the name its supervisor gave it
  (`Scenarios.SelfRegistrationDropsSupervisor`).
- **Jobs never record a worker.** `getCurrentWorkerId` always returns null, so a job's
  `worker_id` is never set.
- **TRUNCATE restarts the key.** `pruneAll` truncates, and on MySQL that also restarts the
  primary key (`Prune.PruneAll` resets `nextId` to 1).
- **A negative `recent` limit is ignored.** The query builder drops a negative limit, so
  every row is returned (`JobModel.Recent`).

## Model

| member | source | states |
|---|---|---|
| WorkerModel.IsHealthy | src/Models/Worker.php:79-86 | no heartbeat is unhealthy; a healthy worker's heartbeat is at most `threshold` seconds old (signed age) |
| WorkerModel.IsStale | src/Models/Worker.php:139-145 | no heartbeat is stale; a heartbeat within the threshold is not stale |
| WorkerModel.StaleIffNotHealthy | src/Models/Worker.php:79-86 | the `stale` scope is exactly the complement of `isHealthy` at the same threshold, a heartbeat exactly `threshold` old being healthy |
| WorkerModel.Uptime | src/Models/Worker.php:91-94 | signed uptime: negative exactly when `started_at` is in the future, and start plus uptime is now |
| WorkerModel.Lookup | src/Services/WorkerManager.php:118 | `first()` finds a row exactly when some row has the id, and the row found has it |
| WorkerModel.LookupUnique | database/migrations/2026_01_01_000002_create_watchtower_workers_table.php:16 | under the unique index the row found for an id is the row holding it |
| WorkerModel.UpdateWherePreservesUnique | database/migrations/2026_01_01_000002_create_watchtower_workers_table.php:16 | an update by id that keeps ids keeps the index unique and the set of ids unchanged |
| WorkerModel.SetStatus | src/Services/WorkerManager.php:68-70 | `where(worker_id)->update(status)` changes the status of that id's rows only, every other row as it was |
| WorkerModel.SetHeartbeat | src/Commands/WorkerCommand.php:175-180 | the heartbeat update stamps that id's rows only |
| WorkerModel.Upsert | src/Commands/WorkerCommand.php:105-115 | `updateOrCreate` by id: afterwards exactly one row has the id and holds the new values; the table grows only when the id was new; other rows keep their place |
| WorkerModel.Insert | src/Services/WorkerManager.php:48-56 | `create` of a new id appends exactly that row |
| WorkerModel.WithStatus | src/Models/Worker.php:115-118 | the scope keeps exactly the rows with that status |
| WorkerModel.ForSupervisor | src/Models/Worker.php:123-126 | the scope keeps exactly that supervisor's rows |
| WorkerModel.RunningScope | src/Models/Worker.php:131-134 | `running` keeps exactly the running rows; no paused row is included |
| WorkerModel.Stale | src/Models/Worker.php:139-145 | `stale` keeps exactly the rows that are not healthy at the threshold |
| ControlChannel.ParseCommand | src/Commands/WorkerCommand.php:134-155 | a stored string names a command exactly when it is that command's token |
| ControlChannel.CommandKeyInjective | src/Services/WorkerManager.php:163-166 | distinct workers have distinct mailbox keys |
| ControlChannel.RestartKeyIsNoCommandKey | src/Commands/RestartCommand.php:72 | the restart stamp key is never a worker's mailbox key |
| ControlChannel.SendCommand | src/Services/WorkerManager.php:150-158 | the worker's slot holds the command's token with expiry 300; every other key is unchanged |
| ControlChannel.LastWriteWins | src/Services/WorkerManager.php:155-157 | a second command sent before the worker polls replaces the first |
| WorkerManager.BuildWorkerCommand | src/Services/WorkerManager.php:179-210 | the five fixed words, then each of tries, timeout, memory, sleep as `--name=value` exactly when set, in that order |
| CommandLine.StartCommandRoundTrip | src/Services/WorkerManager.php:179-210 | parsed by the worker's signature, the command a start builds for a queue read as an argument (one not starting with `-`, or a lone `-`) yields that queue and the worker id it was given, each set option's value and the signature default for each unset one |
| CommandLine.StartArgsOptions | src/Commands/WorkerCommand.php:17-24 | in a started worker's arguments, with a queue read as an argument, `--worker-id` and the four flags read back as written, and `--rest` is absent |
| CommandLine.FlagOption | src/Services/WorkerManager.php:193-207 | a flag written for one option is found by that option's name exactly when the setting is present, and by no other name |
| CommandLine.OtherOptionNoPrefix | src/Commands/WorkerCommand.php:17-24 | an argument `--n=value` never starts with `--m=` for a different option name `m` |
| WorkerManager.StartWorker | src/Services/WorkerManager.php:21-59 | one new running row under the fresh id with both timestamps now and supervisor `default` when none is given; ids stay unique; Redis untouched |
| WorkerManager.StopWorker | src/Services/WorkerManager.php:64-71 | `stop` in the worker's slot with expiry 300 and its rows stopped; nothing else changes |
| WorkerManager.PauseWorker | src/Services/WorkerManager.php:76-83 | `pause` in the slot, the rows paused, nothing else changes |
| WorkerManager.ResumeWorker | src/Services/WorkerManager.php:88-95 | `resume` in the slot, the rows running, nothing else changes |
| WorkerManager.StopWorkerIdempotent | src/Services/WorkerManager.php:64-71 | stopping twice leaves the same world as stopping once |
| WorkerManager.IsProcessRunning | src/Services/WorkerManager.php:215-237 | a null or zero pid is never running; otherwise exactly when the pid is alive |
| WorkerManager.IsWorkerRunning | src/Services/WorkerManager.php:116-125 | false for an unknown id; otherwise the liveness of that row's pid |
| WorkerManager.CleanupStaleWorkers | src/Services/WorkerManager.php:130-145 | exactly the stale, running-or-paused rows with a dead pid become stopped; all others are untouched; the count returned is their number |
| WorkerManager.CleanupKeepsIds | src/Services/WorkerManager.php:130-145 | cleanup keeps the id index unique and the set of ids unchanged |
| WorkerManager.CleanupIdempotent | src/Services/WorkerManager.php:130-145 | cleanup a second time at the same instant changes nothing and counts zero |
| WorkerManager.StopAll | src/Services/WorkerManager.php:246-248 | stopping a list of ids: exactly the rows of listed ids are stopped, every other row unchanged |
| WorkerManager.StopAllChannel | src/Services/WorkerManager.php:246-248 | each listed slot holds `stop` with expiry 300; no other key is touched |
| WorkerManager.ActiveIds | src/Services/WorkerManager.php:244 | the ids selected are exactly those of running or paused rows |
| WorkerManager.TerminateAllWorkers | src/Services/WorkerManager.php:242-249 | afterwards no row is running or paused; every formerly active worker has `stop` in its slot; no slot of any other worker is created |
| WorkerRuntime.OptionValue | src/Commands/WorkerCommand.php:17-24 | a value is found for `--name` exactly when some argument starts with `--name=`, and it is the rest of such an argument |
| WorkerRuntime.OptionValueFirst | src/Commands/WorkerCommand.php:17-24 | the value read is that of the first argument starting with `--name=` |
| WorkerRuntime.OptionValueConcat | src/Commands/WorkerCommand.php:17-24 | a later stretch of arguments is consulted only when the earlier stretch does not set the option |
| WorkerRuntime.ParseWorkerArgs | src/Commands/WorkerCommand.php:17-24 | absent options take the signature defaults (queue `default`, tries 3, memory 128) |
| WorkerRuntime.RegisterWorker | src/Commands/WorkerCommand.php:103-116 | afterwards the worker's own row says supervisor `default`, running, both timestamps now; ids stay unique; other rows keep their place |
| WorkerRuntime.CheckForCommands | src/Commands/WorkerCommand.php:121-156 | a falsy value is left alone; any other is deleted; stop, pause, resume set the flags and rows as written; every other value is dropped without effect; only this worker's slot and rows change |
| WorkerRuntime.SendHeartbeat | src/Commands/WorkerCommand.php:175-180 | only this worker's rows get the new heartbeat; Redis untouched |
| WorkerRuntime.MemoryExceeded | src/Commands/WorkerCommand.php:221-224 | usage in MiB at or above the limit, i.e. bytes at or above limit × 1048576 |
| WorkerRuntime.GracefulShutdown | src/Commands/WorkerCommand.php:229-240 | this worker's rows stopped and its slot deleted; nothing else changes |
| WorkerRuntime.Step | src/Commands/WorkerCommand.php:64-93 | one poll keeps the loop's flag invariant and the worker's identity |
| WorkerRuntime.Run | src/Commands/WorkerCommand.php:64-95 | the loop over any number of polls keeps the flag invariant and the worker's identity |
| WorkerRuntime.Handle | src/Commands/WorkerCommand.php:49-58 | the worker runs under the given `--worker-id`, or the generated one when absent |
| WorkerRuntime.RunJobsGuarded | src/Commands/WorkerCommand.php:64-93 | over any run, every job is immediately preceded by a heartbeat, and that by a poll after which the worker was not paused |
| WorkerRuntime.StepJobsGuarded | src/Commands/WorkerCommand.php:161-170 | the pause sub-loop only sleeps, polls and beats, never runs a job |
| WorkerRuntime.JobExceptionIsContained | src/Commands/WorkerCommand.php:77-86 | a job that throws leaves the loop state and the world exactly as a job that succeeds |
| WorkerRuntime.MemoryLimitStops | src/Commands/WorkerCommand.php:88-92 | memory at or over the limit after a job ends the loop in that pass, the job having run |
| WorkerRuntime.StepIsolated | src/Commands/WorkerCommand.php:121-180 | a poll touches only this worker's slot and rows |
| WorkerRuntime.ExitShutsDown | src/Commands/WorkerCommand.php:95 | leaving the loop stops this worker's rows, empties its slot, and is the last action |
| WorkerRuntime.StopAtTopFinishesPass | src/Commands/WorkerCommand.php:64-93 | a `stop` read at the top still lets that pass beat and run its job, then the loop ends |
| WorkerRuntime.RestartIsIgnored | src/Commands/WorkerCommand.php:134-155 | `restart` and `terminate` are deleted and otherwise ignored: the worker's state is unchanged |
| Supervisor.Queues | src/Commands/SupervisorCommand.php:69 | `(array)` wraps a single queue name and keeps a list |
| Supervisor.Options | src/Commands/SupervisorCommand.php:93-99 | every start carries the supervisor's name and tries/timeout/memory/sleep with defaults 3, 60, 128, 3 |
| Supervisor.GetNextQueue | src/Commands/SupervisorCommand.php:132-135 | no queue exactly when the list is empty (division by zero); otherwise a queue of the list |
| Supervisor.RoundRobin | src/Commands/SupervisorCommand.php:132-135 | the first `n` indices visit the `n` queues in order, and the assignment has period `n` |
| Supervisor.NewRows | src/Commands/SupervisorCommand.php:91-101 | the `j`-th scale-up row is running, of this supervisor, on queue `j mod n`, under the `j`-th fresh id |
| Supervisor.ScaleUp | src/Commands/SupervisorCommand.php:87-102 | the scale-up loop appends its rows in order, keeps ids unique and Redis untouched |
| Supervisor.MarkDead | src/Commands/SupervisorCommand.php:105-108 | the dead counted rows are stopped position by position, nothing else changes |
| Supervisor.Replacements | src/Commands/SupervisorCommand.php:110-121 | one running replacement of this supervisor per dead counted row, under the next fresh id in order |
| Supervisor.ReplacementQueues | src/Commands/SupervisorCommand.php:110-113 | every replacement runs on the queue of a dead counted row it replaces |
| Supervisor.StopRow | src/Commands/SupervisorCommand.php:105-108 | stopping one counted row keeps ids unique, keeps the spawn ids unused and leaves the later rows of the pass untouched |
| Supervisor.CheckRow | src/Commands/SupervisorCommand.php:105-122 | one iteration: a dead counted row is stopped and, when replacing, one row appended; a live row changes nothing |
| Supervisor.CheckRowOutcome | src/Commands/SupervisorCommand.php:105-123 | each iteration advances the liveness loop without changing where it ends |
| Supervisor.MarkDeadCount | src/Commands/SupervisorCommand.php:105-108 | marking the dead rows stopped shrinks the fleet count by exactly their number |
| Supervisor.Supervise | src/Commands/SupervisorCommand.php:67-127 | a pass completes exactly when it has queues or the fleet is not short; a crash keeps the cleanup; a completed pass leaves the closed-form table; ids stay unique; Redis untouched |
| Supervisor.PassScaleUp | src/Commands/SupervisorCommand.php:87-101 | a pass starts exactly the shortfall below `min_processes`, the `j`-th running on the `j`-th round-robin queue under the `j`-th fresh id and this supervisor |
| Supervisor.PassReplacements | src/Commands/SupervisorCommand.php:104-122 | replacements are started only when the count was at most the minimum, one per dead counted row, running, of this supervisor, under the fresh ids after the scale-up's |
| Supervisor.PassTableLayout | src/Commands/SupervisorCommand.php:87-123 | the cleaned table keeps its rows and ids in place, followed by the scale-up rows and then the replacements |
| Supervisor.PassFleetSize | src/Commands/SupervisorCommand.php:82-123 | from the cleaned table, a completed pass leaves the fleet at exactly `min_processes` when the count was at most the minimum, and otherwise at that count less its dead rows |
| Supervisor.PassStarts | src/Commands/SupervisorCommand.php:87-123 | a pass keeps every row of the cleaned table in place and appends exactly the shortfall plus (when replacing) one row per dead row, under the fresh ids in order |
| Supervisor.PassScaleUpQueues | src/Commands/SupervisorCommand.php:91-99 | the `j`-th row after the cleaned table runs on queue `j mod n` under this supervisor |
| Supervisor.MaxAndBalanceUnused | src/Commands/SupervisorCommand.php:84 | changing `max_processes` or `balance` changes nothing in a pass |
| Supervisor.OutputStatus | src/Commands/SupervisorCommand.php:140-149 | a status line exactly when 30 seconds have passed since the last; the last-output time moves only then |
| Supervisor.Iterate | src/Commands/SupervisorCommand.php:46-56 | one loop iteration: the pass's world is kept even when it throws, and a status line is added exactly when the pass completed and the throttle allows |
| Supervisor.PassKeepsLaterSpawnsFresh | src/Services/WorkerManager.php:171-174 | the UUIDs of later passes stay unused after a pass |
| Supervisor.Loop | src/Commands/SupervisorCommand.php:46-56 | over any number of passes: ids stay unique, each pass is counted, earlier status lines are kept |
| Supervisor.LoopThrottled | src/Commands/SupervisorCommand.php:140-149 | however the clock moves and whichever passes throw, status lines are at least 30 seconds apart and the first is no earlier than 30 |
| Supervisor.Handle | src/Commands/SupervisorCommand.php:30-62 | fails exactly when the supervisor name has no configuration; otherwise loops with unique ids and throttled status lines |
| Restart.Signal | src/Commands/RestartCommand.php:51-58 | every selected worker's slot holds the signal with expiry 300; no other key changes |
| Restart.RestartWorkers | src/Commands/RestartCommand.php:26-79 | the count is the number of running workers on the queue (any queue when the option is falsy); with none, nothing is written; otherwise each gets `restart` (or `terminate` when forced) and the stamp is set without expiry; the table is only read |
| Restart.RestartStampRoundTrip | src/Commands/RestartCommand.php:71-72 | the stamp reads back as the time the command ran |
| Restart.SignalledWorkerKeepsRunning | src/Commands/WorkerCommand.php:134-155 | a signalled worker deletes the signal at its next poll and carries on exactly as before |
| JobModel.GetDuration | src/Models/Job.php:95-102 | null exactly when either timestamp is missing; otherwise the absolute distance between them |
| JobModel.DurationOfRun | src/Models/Job.php:95-102 | a job started at `t1` and finished at `t2 >= t1` lasted `t2 - t1` |
| JobModel.GetJobClass | src/Models/Job.php:107-114 | the display name exactly when it is set (present and not null) |
| JobModel.FindByJobId | src/Services/JobMonitor.php:43 | a row is found exactly when one has the `job_id`, and the row found has it |
| JobModel.FindByJobIdUnique | database/migrations/2026_01_01_000001_create_watchtower_jobs_table.php:16 | under the unique index the row found is the row holding the id |
| JobModel.UpdateJob | src/Services/JobMonitor.php:43-47 | an update by `job_id` rewrites that id's rows only and keeps the table well formed; an unknown id changes nothing |
| JobModel.FilterWellFormed | database/migrations/2026_01_01_000001_create_watchtower_jobs_table.php:15-16 | deleting rows keeps the unique index and the key order |
| JobModel.WithStatus | src/Models/Job.php:119-122 | the scope keeps exactly the rows with that status |
| JobModel.OnQueue | src/Models/Job.php:127-130 | the scope keeps exactly the rows of that queue |
| JobModel.FailedScope | src/Models/Job.php:143-146 | `failed` keeps exactly the failed rows |
| JobModel.CompletedScope | src/Models/Job.php:151-154 | `completed` keeps exactly the completed rows |
| JobModel.SortDescending | src/Models/Job.php:137 | the ordering is a permutation that is newest first by `queued_at` |
| JobModel.Recent | src/Models/Job.php:135-138 | `limit` rows (all of them for a negative limit or a short table), newest first, drawn from the table, and none left out is newer than one kept |
| JobMonitor.ExtractJobId | src/Services/JobMonitor.php:105-119 | the job object's id when it has one; else the payload's `id` cast to string when set; else a `watchtower_` id; it fails exactly when the payload's `id` is an array |
| JobMonitor.CastToString | src/Services/JobMonitor.php:114 | the `(string)` cast fails exactly on an array (the conversion warning is raised as an exception) and keeps a string as it is |
| JobMonitor.IntIdReadsBack | src/Services/JobMonitor.php:114 | an integer payload id cast to string reads back as the same integer |
| JobMonitor.ExtractPayload | src/Services/JobMonitor.php:124-142 | a non-array (after decoding a string) gives the empty array; an array gives exactly the six kept keys, null where not set |
| JobMonitor.JobClassSurvivesExtraction | src/Services/JobMonitor.php:134-141 | the stored record names the job class exactly when the raw payload did |
| JobMonitor.RecordJobQueued | src/Services/JobMonitor.php:18-33 | a new id appends one pending row queued now, with no attempts, run times, exception or worker; a duplicate id, or one whose cast fails, writes nothing; the table stays well formed |
| JobMonitor.RecordJobStarted | src/Services/JobMonitor.php:38-51 | the job's rows become processing, started now, with no worker; nothing else changes; an id whose cast fails writes nothing |
| JobMonitor.RecordJobCompleted | src/Services/JobMonitor.php:56-68 | the job's rows become completed, finished now; nothing else changes; an id whose cast fails writes nothing |
| JobMonitor.RecordJobFailed | src/Services/JobMonitor.php:73-86 | the job's rows become failed, finished now, with the exception text; nothing else changes; an id whose cast fails writes nothing |
| JobMonitor.RecordJobRetrying | src/Services/JobMonitor.php:91-100 | the job's rows gain one attempt; nothing else changes; an id whose cast fails writes nothing |
| JobMonitor.Record | src/WatchtowerServiceProvider.php:158-177 | any event keeps the table well formed; only a queued event can add a row, and at most one |
| JobMonitor.UnknownJobUnchanged | src/Services/JobMonitor.php:38-100 | an update event for an id with no row changes nothing |
| JobMonitor.UncastableIdWritesNothing | src/Services/JobMonitor.php:38-119 | an event with no job-object id and an array payload `id` leaves the table unchanged, whichever listener handles it |
| JobMonitor.RetryAddsOneAttempt | src/Services/JobMonitor.php:91-100 | a retry adds exactly one attempt to the job's row and changes nothing else in the table |
| JobMonitor.RecordAll | src/WatchtowerServiceProvider.php:158-177 | any sequence of events, each with its own `uniqid` suffix, keeps the table well formed and adds at most one row per event |
| JobMonitor.IdlessQueuedAddRows | src/Services/JobMonitor.php:18-119 | queued events whose payload has no id, recorded with distinct fresh `uniqid` suffixes, add exactly one row each |
| JobMonitor.IdlessQueuedKeepsOthersFresh | src/Services/JobMonitor.php:105-119 | recording one id-less queued event takes only its own generated id, so other fresh suffixes stay fresh |
| JobMonitor.GeneratedIdInjective | src/Services/JobMonitor.php:118 | distinct `uniqid` suffixes give distinct generated job ids |
| JobMonitor.LifecycleRow | src/Services/JobMonitor.php:18-68 | queued, processing and processed events leave one new row with the queued values, completed, with both run times |
| JobMonitor.SuccessfulLifecycle | src/Services/JobMonitor.php:18-68 | that row is found by its id, completed, never attributed to a worker, with no attempts and a duration of `t2 - t1` |
| FailedJobs.FindFailed | src/Http/Controllers/FailedJobsController.php:34 | finds a position exactly when a failed row has the id |
| FailedJobs.Retry | src/Http/Controllers/FailedJobsController.php:32-49 | not found exactly when no failed row has the id; otherwise that row goes back to pending with run times and exception cleared and every other row as it was |
| FailedJobs.RetryLeavesFailedListing | src/Http/Controllers/FailedJobsController.php:32-49 | a retried job leaves the failed listing: one failed row fewer and one pending row more |
| FailedJobs.CountWithout | src/Http/Controllers/FailedJobsController.php:56 | deleting one row lowers a count by one exactly when that row was counted |
| FailedJobs.WithoutRow | src/Http/Controllers/FailedJobsController.php:56 | deleting a row removes exactly its id |
| FailedJobs.Destroy | src/Http/Controllers/FailedJobsController.php:54-63 | not found exactly when no failed row has the id; otherwise exactly that row is deleted, in place |
| FailedJobs.DestroyRemovesOne | src/Http/Controllers/FailedJobsController.php:54-63 | the table loses one row, no row keeps the id, and the failed count drops by one |
| Prune.Retention | src/Commands/PruneJobsCommand.php:32-36 | the option (cast to int) overrides the configuration, which overrides the default; an explicit null configuration disables pruning |
| Decimal.ParseIntSkipsSpace | src/Commands/PruneJobsCommand.php:44 | the `(int)` cast ignores leading whitespace: a whitespace character before the text does not change the number read |
| Prune.OptionOverridesConfig | src/Commands/PruneJobsCommand.php:32-36 | a `--completed=<days>` option gives back exactly those days |
| Prune.DeleteExpired | src/Commands/PruneJobsCommand.php:42-53 | exactly the rows of that status finished before the cutoff are deleted and counted; no retention deletes nothing |
| Prune.FilterKeepsAll | src/Commands/PruneJobsCommand.php:42-53 | a deletion that matches no row leaves the rows as they were |
| Prune.PruneByRetention | src/Commands/PruneJobsCommand.php:26-62 | expired completed then expired failed rows are deleted; pending and processing rows are never deleted; the printed total is exactly the number of rows removed |
| Prune.PruneAll | src/Commands/PruneJobsCommand.php:67-80 | a declined prompt deletes nothing; an accepted one empties the table |
| Prune.Handle | src/Commands/PruneJobsCommand.php:26-30 | `--all` takes the truncate path exactly; otherwise the counts are those of the resolved retentions |
| Metrics.JobStatusPartition | src/Models/Job.php:47-50 | every job has exactly one of the four statuses, so the status counts add up to the total |
| Metrics.WorkerStatusPartition | src/Models/Worker.php:40-42 | every worker has exactly one of the three statuses |
| Metrics.StatsFrom | src/Services/MetricsCollector.php:19-33 | each status figure is the size of that status's scope and they add up to the total; each last-hour figure counts the jobs of its scope finished at or after its cutoff; the worker figures are the running and paused scopes |
| Metrics.WindowWithinScope | src/Services/MetricsCollector.php:25-30 | counting the jobs of one status finished since a time is the same as counting, within that status's scope, those finished since it |
| Metrics.GetStatsAsWritten | src/Services/MetricsCollector.php:15-34 | as written, `failed_last_hour` counts failures since two hours before now |
| Metrics.GetStats | src/Services/MetricsCollector.php:15-34 | corrected: each status figure is the size of its scope and they add up to the total; completed and failed last hour count the jobs of that status finished at or after one hour before now |
| Metrics.LastHourWindowsAgree | src/Services/MetricsCollector.php:25-30 | corrected, the two last-hour figures together count exactly the jobs that ended in the last hour |
| Metrics.FailedLastHourAsWrittenOvercounts | src/Services/MetricsCollector.php:26-29 | a job that failed 90 minutes ago counts as failed in the last hour as written, and not when corrected |
| Metrics.StartOfShift | src/Services/MetricsCollector.php:44-45 | stepping back `i` whole hours or minutes lands `i` buckets back, and each instant lies in its own bucket |
| Metrics.HourBucketAtShape | src/Services/MetricsCollector.php:44-53 | the bucket `i` hours back starts `i` whole hours before the current hour and counts the completed and failed jobs finished within it |
| Metrics.HourlyThroughput | src/Services/MetricsCollector.php:39-63 | 24 buckets, the `k`-th starting `23 - k` hours before the current hour, each counting completed and failed jobs finished in it |
| Metrics.HourlyContiguous | src/Services/MetricsCollector.php:43-45 | the hour buckets are consecutive and the last one holds now |
| Metrics.SplitWindow | src/Services/MetricsCollector.php:47-53 | two adjacent closed windows count what their union counts |
| Metrics.BucketsCover | src/Services/MetricsCollector.php:43-60 | consecutive buckets together count each job of the span exactly once |
| Metrics.HourlyCoversDay | src/Services/MetricsCollector.php:39-63 | summed over the day, the hourly buckets count every job finished from the start of the hour 23 hours back to the end of the current hour |
| Metrics.MinuteBucketAtShape | src/Services/MetricsCollector.php:104-109 | the bucket `i` minutes back starts `i` whole minutes before the current minute and counts the completed plus the failed jobs finished within it |
| Metrics.RecentThroughput | src/Services/MetricsCollector.php:99-118 | 10 buckets, the `k`-th starting `9 - k` minutes before the current minute, each counting exactly the completed plus the failed jobs finished in it |
| Metrics.RecentContiguous | src/Services/MetricsCollector.php:103-105 | the minute buckets are consecutive and the last one holds now |
| Metrics.FindQueue | src/Services/MetricsCollector.php:70-74 | finds the entry of a queue exactly when it has one |
| Metrics.AddPending | src/Services/MetricsCollector.php:70-74 | counting one more pending job keeps queues distinct and adds one to the total |
| Metrics.AddPendingDepth | src/Services/MetricsCollector.php:70-74 | counting one more pending job on `q` raises `q`'s depth by one and no other |
| Metrics.QueueDepths | src/Services/MetricsCollector.php:68-75 | one entry per queue, every count positive, the counts summing to the number of pending jobs |
| Metrics.QueueDepthIsPendingCount | src/Services/MetricsCollector.php:68-75 | every queue's reported depth is its number of pending jobs (zero when absent) |
| Metrics.GetWorkerStats | src/Services/MetricsCollector.php:123-134 | running, paused and stopped are the sizes of their scopes and add up to the total; healthy is the total less the `stale` scope at 30 seconds |
| Metrics.WorkerFiguresAgree | src/Services/MetricsCollector.php:31-32 | the dashboard's active and paused worker figures equal the worker page's running and paused figures |
| Scenarios.SelfRegistrationDropsSupervisor | src/Commands/WorkerCommand.php:105-115 | a worker a supervisor starts re-registers under `default`, so its row stops counting toward its supervisor's fleet |
| Scenarios.RegisterOverwritesLast | src/Commands/WorkerCommand.php:105-115 | registering under the id of the last row overwrites that row in place with supervisor `default` |
| Scenarios.FleetCanDipBelowMinimum | src/Commands/SupervisorCommand.php:111 | with the count above the minimum and enough dead workers, a completed pass leaves the fleet below `min_processes` |

## Left out

- `getAllWorkers`, `getRunningWorkers`, the `jobs` relation and the per-worker processed and failed counts are plain reads and are not modelled. No job ever records a worker, so those counts are always zero.
- `getAverageDurations`: an SQL `AVG` of `TIMESTAMPDIFF` with rounding to two decimals, which is floating point.
- `formatException`: text formatting of a PHP exception. The failed listener stores the text it is given.
- Redis key expiry is recorded but never fires. The model's clock does not advance Redis, so an unread command stays in its slot until read or overwritten.
- Spawning processes, `usleep`, `sleep`, process output, logging and console messages.
- `FailedJobsController.index`, the HTTP responses and redirects.
- Concurrent interleavings are left out. Each model step is one atomic read-modify-write, and another process's write appears only as a `Tick`'s incoming command. Races between the supervisor's snapshot and its writes are not explored.
- Calendar and timezone handling: times are integer UTC seconds, and hours and minutes are fixed 3600- and 60-second buckets. The `H:i` labels are not modelled.
- Metrics.HourlyThroughput: reads `now()` once, where the source calls it anew for each bucket.
- Metrics.RecentThroughput: reads `now()` once, where the source calls it anew for each bucket.
- Supervisor.Supervise: takes one `now` for the whole pass, where the source reads the clock at each start.
- Supervisor.Loop: models a finite prefix of the supervisor's endless loop. Its shutdown path (`terminateAllWorkers`) is modelled separately as `WorkerManager.TerminateAllWorkers`.
- WorkerRuntime.Run: models a finite prefix of the worker's loop. Laravel's `runNextJob` itself (the job's side effects, its queue events) is outside the model, and a job is an action in the trace.
- WorkerRuntime.ParseWorkerArgs: its own contract states the default paths; the set values are stated for the arguments a start builds (`CommandLine.StartCommandRoundTrip`). It reads the first `--name=value` occurrence, while Symfony's console takes the last, and the `--name value` spelling is not modelled. An unknown option (`-x`, `--foo=1`) is ignored here, where Symfony's console rejects it and the command does not start. Its `(int)` casts go through `Decimal.ParseInt`, which reads leading whitespace, a sign and digits only: exponent and fractional spellings (`"1e1"` casts to 10 in PHP) and saturation at 64-bit bounds are not modelled.
- CommandLine.StartCommandRoundTrip: stated only for queues the worker reads as an argument. A queue that starts with `-` and is longer than one character is read by Symfony's console as an option, so a worker started on it fails at start-up; the model does not state that failure.
- WorkerRuntime.OptionValueFirst: the first `--name=value` occurrence is the one read, where Symfony's console keeps the last. `startWorker` never repeats an option, so the two agree on every command it builds.
- JobMonitor.ExtractJobId: a decoded JSON value has no float case, so a fractional or over-64-bit numeric payload `id` (which `(string)` prints in float form) cannot be represented.
- Prune.Retention: the `(int)` casts of `--completed` and `--failed` (`PruneJobsCommand.php:44` and `:51`) are `Decimal.ParseInt`, so exponent and fractional spellings and 64-bit saturation are not modelled; decimal text, with leading whitespace and a sign, is.
- Prune.Handle: takes one `now` for both cutoffs, where the source calls `now()` separately for the completed and the failed cutoff.
- WorkerModel.StaleIffNotHealthy: holds on whole-second instants only. Carbon's `diffInSeconds` is fractional while the `stale` cutoff compares whole seconds, so with a fractional clock a heartbeat between `threshold` and `threshold + 1` seconds old can be neither healthy nor stale.
- Metrics.GetWorkerStats: healthy plus stale equals the total on whole-second instants only, for the same reason.
- JobModel.SortDescending: the database's order among rows with equal `queued_at` is unspecified. The model keeps table order for ties.
- The configuration file's environment lookups are left out. A supervisor configuration and the retention settings are given as values.

## Findings

| source | as written | input that shows it | evidently intended | confidence | as-written member | corrected member |
|---|---|---|---|---|---|---|
| src/Services/MetricsCollector.php:26-29 | `$now->subHour()` moves `$now` itself back an hour, so `failed_last_hour` compares against `$now->copy()->subHour()`, two hours before the call | a job that failed 5400 seconds ago is counted in `failed_last_hour`, while a job completed at the same time is not counted in `completed_last_hour` | both last-hour figures count from one hour before now | high (not executed) | Metrics.GetStatsAsWritten, Metrics.FailedLastHourAsWrittenOvercounts | Metrics.GetStats, Metrics.LastHourWindowsAgree |
