# you-get download scheduler, modelled in Dafny

This project models the download-task scheduler of you-get's Tk front end. The
sources are `src/you_get/task_manager.py` and the progress counter
`SimpleProgressBar` of `src/you_get/thread_monkey_patch.py`. It then proves
properties of the model. The parts are:

- `progress_bar.dfy`, module `ProgressBar`: the counter a download worker
  advances and a task reads.
- `schema.dfy` and `store.dfy`, modules `Schema` and `Store`: `YouGetDB`'s
  task table. It is a map from origin to row, and a row maps each column to a
  cell. The SQL text, JSON encodings and connection handling are not modelled.
- `task.dfy`, module `Tasks`: a `Task`'s state, the outcome counter updated by
  `my_download_main`, the status reports from the downloader
  (`update_task_status`), and diff-only persistence (`save_db`).
- `priority_queue.dfy`, module `PriorityQueue`: the lazy-deletion heap. A
  removed entry is kept as a tombstone that `pop` skips. The binary heap is
  abstracted as a sequence, and `heappop` takes its least (priority, count)
  entry.
- `task_manager.dfy`, module `TaskManager`: the `TaskManager`. It keeps a
  registry of tasks in insertion order, a running list capped at
  `max_task = 5`, a FIFO waiting queue and `max_retry = 3`. Each method is a
  pure state transition. A method that raises part way returns the state it
  left together with the error.
- `scenarios.dfy`, module `Scenarios`: whole-scheduler consequences, such as
  how a worker's outcome decides at the next tick whether its task keeps
  running, is retried or is retired.
- `results.dfy` and `seqs.dfy` hold shared helpers: `Option`/`Result`,
  duplicate-freedom, and Python's `list.remove`.

Modelling choices:

- Task objects are identified by a `TaskId`. The queues hold task objects,
  not origins, so the model tracks objects by identity, as Python does.
- Whether a worker thread is still alive (`atask.thread.is_alive()`) is a set
  of live task ids. The caller supplies it with every operation that runs a
  tick.
- A worker's return is `FinishWorker`. It applies the outcome update of
  `my_download_main`.
- Starting a task (`atask.start()`) means it becomes running.

`queue_task` looks only in the waiting queue, not in the running list. A task
that is queued while it is running is therefore started a second time, and
the running list then holds it twice. The model keeps this behaviour and
`Scenarios.QueueRunningRunsTwice` shows it. Because of this, the theorem that
no task is both running and waiting (`Exclusive`) is stated only for queueing
a task that is not running.

## Model

| member | source | states |
|---|---|---|
| ProgressBar.NewBar | src/you_get/thread_monkey_patch.py:192-197 | a fresh bar has received nothing, is on piece 1, is not finished, and keeps the given total size and piece count |
| ProgressBar.UpdateReceived | src/you_get/thread_monkey_patch.py:201-203 | received grows by exactly `n`, and no other field changes |
| ProgressBar.UpdatePiece | src/you_get/thread_monkey_patch.py:204-205 | the current piece becomes `n`, and nothing else changes |
| ProgressBar.Done | src/you_get/thread_monkey_patch.py:206-210 | the bar is finished, received equals the total size, the current piece is the last, and the totals are unchanged |
| ProgressBar.ReceiveAllAddsSum | src/you_get/thread_monkey_patch.py:201-203 | a run of `update_received` calls adds exactly the sum of their arguments and touches no other field |
| ProgressBar.NewBarDefault | src/you_get/thread_monkey_patch.py:192-197 | a bar built without a piece count has one piece, and otherwise starts like any fresh bar |
| ProgressBar.NewBarReceivesSum | src/you_get/thread_monkey_patch.py:192-203 | a fresh bar that then receives a run of chunks has received exactly their sum |
| ProgressBar.DoneIdempotent | src/you_get/thread_monkey_patch.py:206-210 | calling `done()` twice gives the same bar as calling it once |
| ProgressBar.DoneAbsorbsProgress | src/you_get/thread_monkey_patch.py:206-210 | `done()` overrides any earlier received count or piece |
| Schema.DefaultOptions | src/you_get/task_manager.py:244-251 | the defaults are the url given (`None` when none is), no playlist, output directory `.`, merging on, no extractor proxy and no stream id |
| Schema.Merge | src/you_get/task_manager.py:252 | each option passed replaces its default, and each option not passed keeps it |
| Schema.MergeNothing | src/you_get/task_manager.py:244-252 | a task created with no options has exactly the defaults |
| Schema.MergeEverything | src/you_get/task_manager.py:244-252 | passing every option overrides every default |
| Store.GetTaskValues | src/you_get/task_manager.py:127-132 | a row is found exactly when the origin is given and stored, and the row found is the stored one |
| Store.AddThenGet | src/you_get/task_manager.py:171-184 | after a successful insert, looking the row's origin up finds the new row, and every other origin reads as before |
| Store.AddTask | src/you_get/task_manager.py:171-184 | inserting a row whose origin is already stored fails with `IntegrityError` (origin is UNIQUE) and in no other case; otherwise the row is stored under its origin |
| Store.SetTaskValues | src/you_get/task_manager.py:146-160 | an empty update is an SQL error; otherwise only the named columns of that origin's row change, other rows and columns keep their values, and the origin cell stays bound to the row's origin |
| Store.SetThenGet | src/you_get/task_manager.py:146-160 | after an update, looking the origin up finds each named column's new value, with the origin column still holding the origin |
| Store.DeleteTask | src/you_get/task_manager.py:162-169 | exactly the rows of the named origins disappear, whether one origin or a list is given, and the rest are unchanged |
| Store.DeleteThenGet | src/you_get/task_manager.py:162-169 | after a delete, a named origin is not found and every other origin reads as before |
| Tasks.NewTask | src/you_get/task_manager.py:243-274 | a new task is pending (outcome 0) with priority 100, keyed by its url; it has no progress, title, file or real urls, and has an empty playlist exactly when a playlist download is requested |
| Tasks.NewTaskRoundTrip | src/you_get/task_manager.py:358-373 | reading back the row stored for a new task gives back that new task |
| Tasks.WorkerOutcome | src/you_get/task_manager.py:225-239 | a normal return sets the outcome to 1, an exception lowers it by exactly 1, and nothing else changes |
| Tasks.FailRunsCount | src/you_get/task_manager.py:225-239 | after `n` failed runs the outcome is exactly `n` lower, with the rest of the task untouched |
| Tasks.RetryLadder | src/you_get/task_manager.py:512-513 | from a fresh outcome, a task is retryable after `n` failures exactly when `1 <= n < max_retry` |
| Tasks.GetTotal | src/you_get/task_manager.py:276-280 | the total comes from the attached bar when there is one, and otherwise from the cached total |
| Tasks.Update | src/you_get/task_manager.py:289-309 | afterwards the task has no unseen progress; with a bar attached it holds the bar's received count; only `received` can change |
| Tasks.UpdateChangesIffChanged | src/you_get/task_manager.py:282-309 | `update` alters the task exactly when `changed()` is true |
| Tasks.PercentDone | src/you_get/task_manager.py:311-316 | the result is 0 when the total is not positive; otherwise it times the total equals received times 100 |
| Tasks.PercentDoneBounded | src/you_get/task_manager.py:311-316 | with received between 0 and the total, the percentage lies between 0 and 100 |
| Tasks.DoneReportsFull | src/you_get/task_manager.py:276-316 | once the attached bar is done and its total is positive, the next update makes the task report that total and 100 percent |
| Tasks.Basename | src/you_get/task_manager.py:327 | the basename contains no `/`, is a suffix of the path, and is preceded by `/` whenever it is shorter than the path |
| Tasks.ReportedTitle | src/you_get/task_manager.py:325-329 | a title, once set, is never replaced; otherwise the reported title is used, falling back to the file's basename |
| Tasks.RecordNames | src/you_get/task_manager.py:322-333 | given urls replace the real urls; the title and the file path keep their first non-`None` value; nothing else changes |
| Tasks.RecordPlaylist | src/you_get/task_manager.py:334-336 | on a playlist download, the file's basename joins the playlist unless the full path is already in it; nothing else changes |
| Tasks.RecordPlaylistKeepsBasenames | src/you_get/task_manager.py:334-336 | on a playlist of basenames, the file's basename is always in the playlist afterwards, and the playlist stays one of basenames |
| Tasks.UpdateTaskStatus | src/you_get/task_manager.py:318-342 | the report raises exactly when a file path reaches a playlist download whose playlist is `None` (as after loading a NULL playlist), keeping the names already recorded; otherwise the playlist only grows, the bar is attached, progress is taken over and a save becomes pending; outcome and identity never change |
| Tasks.ReportTwiceIsReportOnce | src/you_get/task_manager.py:318-342 | delivering the same report twice leaves the task as delivering it once |
| Tasks.GetDatabaseData | src/you_get/task_manager.py:358-373 | the row has every column, each well typed, and its total is the one `get_total` reports |
| Tasks.TaskFromRow | src/you_get/task_manager.py:590-593 | a task rebuilt from a row takes the row's origin and outcome, and has no bar, real urls or pending save |
| Tasks.TaskRowRoundTrip | src/you_get/task_manager.py:358-373 | reading back a task's row gives back the task's persisted fields |
| Tasks.RowTaskRoundTrip | src/you_get/task_manager.py:358-373 | writing back a task read from a row gives back the same row |
| Tasks.Diff | src/you_get/task_manager.py:349-353 | the diff holds exactly the columns that are absent from the stored row or differ from it, with their current values |
| Tasks.WriteChanges | src/you_get/task_manager.py:347-355 | exactly the changed columns are written, only to the task's row; afterwards the row agrees with the current values; untouched columns keep their values; with no change, nothing is written |
| Tasks.SaveDb | src/you_get/task_manager.py:344-356 | afterwards no save is pending and no progress is unseen; only progress and the dirty flag change; with no stored row nothing is written; otherwise the write is `WriteChanges` against the current values |
| Tasks.SaveTwiceWritesNothing | src/you_get/task_manager.py:344-356 | saving again right after a save writes nothing |
| Tasks.SaveStoresRow | src/you_get/task_manager.py:344-356 | after a save to an existing row, every column of the task's row data is stored with that value |
| Tasks.SaveKeepsIdle | src/you_get/task_manager.py:344-356 | saving a task with no bar and no pending save leaves the task as it was |
| PriorityQueue.Empty | src/you_get/task_manager.py:403-407 | the queue `__init__` is meant to build is valid and holds no task |
| PriorityQueue.NewAsWritten | src/you_get/task_manager.py:403-407 | as written, construction always fails because `itertool` does not exist |
| PriorityQueue.ContainsIffLiveEntry | src/you_get/task_manager.py:435-443 | `in` holds exactly for tasks with a live heap entry, `all()` is the set of those tasks, and `len` counts them |
| PriorityQueue.Remove | src/you_get/task_manager.py:419-423 | removing an absent task raises `KeyError`, and only then; otherwise the task is forgotten, the heap keeps its size, and the queue stays valid |
| PriorityQueue.TombstoneValid | src/you_get/task_manager.py:419-423 | tombstoning a live task's entry and forgetting the task keeps the queue valid |
| PriorityQueue.Enter | src/you_get/task_manager.py:414-417 | a task not in the queue gets an entry with the negated priority and the next count, and the queue stays valid |
| PriorityQueue.Push | src/you_get/task_manager.py:409-417 | the task's entry becomes the new one, with the negated priority and the next count, even when the task was present; the queue stays valid |
| PriorityQueue.PushAsWritten | src/you_get/task_manager.py:409-417 | as written, re-pushing a present task raises, and only then; otherwise it is `Push` |
| PriorityQueue.MinIndex | src/you_get/task_manager.py:428 | the chosen entry precedes every heap entry in (priority, count) order |
| PriorityQueue.Pop | src/you_get/task_manager.py:425-433 | `pop` raises exactly when no live task remains; otherwise it returns a live task whose entry precedes every live entry and forgets only that task |
| PriorityQueue.PopSkipsRemoved | src/you_get/task_manager.py:419-433 | a task without a live entry, such as a removed one, is never popped |
| PriorityQueue.EqualPriorityFifo | src/you_get/task_manager.py:409-433 | of two tasks pushed with equal priority, the second pushed is never popped first |
| PriorityQueue.HigherPriorityFirst | src/you_get/task_manager.py:409-433 | with two tasks of different priority, the lower-priority one is not popped first, in either push order |
| PriorityQueue.RepushKeepsOneEntry | src/you_get/task_manager.py:409-417 | re-pushing a task keeps one live entry for it, carrying the latest priority |
| PriorityQueue.PopTakesLeast | src/you_get/task_manager.py:425-433 | when one live entry strictly precedes all others, `pop` returns its task |
| PriorityQueue.PopOrderExample | src/you_get/task_manager.py:409-433 | after pushing A (priority 5), B (1) and C (5), the pops return A, C, B and then raise |
| PriorityQueue.RepushFailsAsWritten | src/you_get/task_manager.py:413 | as written, re-pushing a present task fails, while the intended push keeps it |
| TaskManager.NewManager | src/you_get/task_manager.py:449-455 | a new manager has no tasks, empty queues, a cap of 5 and 3 attempts, and satisfies every invariant |
| TaskManager.Survivors | src/you_get/task_manager.py:504-508 | the kept tasks are exactly the running tasks whose worker is alive, each taken from the running list at most as often as it occurs there |
| TaskManager.Requeued | src/you_get/task_manager.py:509-513 | the requeued tasks are exactly the finished running tasks with `-max_retry < success < 0`, taken from the running list |
| TaskManager.SurvivorsRequeuedWithin | src/you_get/task_manager.py:504-513 | kept and requeued tasks together use each running entry at most once, so no entry is both kept and requeued |
| TaskManager.SweepSave | src/you_get/task_manager.py:505-510 | a live task with no save pending is left alone and nothing is written; a finished task, or one with a save pending, is saved, so its existing row then matches it and no save stays pending; only its own row can change |
| TaskManager.Sweep | src/you_get/task_manager.py:502-514 | the sweep keeps the task objects and stored origins; every kept task was running and is alive, every requeued one was running and is finished; tasks with no bar and no pending save are untouched |
| TaskManager.SweepKeepsLive | src/you_get/task_manager.py:504-514 | the loop over the running list keeps exactly the tasks `Survivors` describes: those whose worker is alive |
| TaskManager.SweepRequeuesRetryable | src/you_get/task_manager.py:509-513 | the loop appends to the waiting queue exactly the tasks `Requeued` describes: finished and retryable, judged by the outcome before the save |
| TaskManager.SweepSavesObjects | src/you_get/task_manager.py:505-510 | the sweep changes tasks only in progress and the dirty flag; tasks not running, and running tasks that are alive with no save pending, are untouched; no save becomes pending; finished tasks and tasks with a pending save end with none |
| TaskManager.SweepWritesOwnRows | src/you_get/task_manager.py:505-510 | the sweep writes only the rows of the running tasks, and of those only a row some task of which finished or has a save pending; it adds or deletes none |
| TaskManager.SweepKeepsRowMatch | src/you_get/task_manager.py:502-510 | once a task's row matches it, the rest of the sweep keeps it matching, when no other running task shares its origin |
| TaskManager.SweepStoresFinished | src/you_get/task_manager.py:502-510 | a running task that finished or has a save pending ends the sweep with its row matching it, when the row exists and no other running task shares its origin |
| TaskManager.Promote | src/you_get/task_manager.py:516-525 | promotion takes waiting tasks strictly from the front, keeps the running list as a prefix, never exceeds a cap that held before, and stops only when the cap is reached or no task waits |
| TaskManager.UpdateTaskQueue | src/you_get/task_manager.py:501-525 | a tick keeps the invariants and the cap; the live tasks stay first in running order; freed slots are filled from the front of the waiting queue followed by the requeued tasks; every waiting task and every live running task is still queued; no task is introduced; tasks with no bar and no pending save are untouched, and so are live running tasks with no pending save; a row whose running tasks are all alive with no pending save is not written; no task is both running and waiting if none was before |
| TaskManager.TickStoresFinished | src/you_get/task_manager.py:501-514 | after a tick, the row of a running task that finished or had a save pending holds every column of the task's row data, and no save is pending, when the row exists and no other running task shares the origin |
| TaskManager.AppendAndTick | src/you_get/task_manager.py:484-485 | the tick runs on the queues with the task added at the back of the waiting queue; the task is queued afterwards; tasks not running are untouched |
| TaskManager.ResetTask | src/you_get/task_manager.py:480-481 | a negative outcome is reset to 0, and no other task or field changes |
| TaskManager.QueueTask | src/you_get/task_manager.py:474-485 | the task's outcome is reset if negative and no other outcome changes; a task already waiting is only reset; otherwise the reset task joins the back of the waiting queue and a tick runs; afterwards the task is queued, as is every task that was waiting or running alive; other idle tasks are untouched; exclusivity is kept when the task was not running; the cap is kept |
| TaskManager.QueueOrigin | src/you_get/task_manager.py:474-477 | an unknown origin changes nothing; a known one queues its task |
| TaskManager.Register | src/you_get/task_manager.py:548-549 | a new task object is registered under its origin, last in registry order, with the queues and store untouched |
| TaskManager.Enrol | src/you_get/task_manager.py:469-472 | the result is `queue_task` on the newly registered task, so the task ends up running or waiting, and the invariants are kept |
| TaskManager.StartDownload | src/you_get/task_manager.py:457-472 | an empty url changes nothing; a registered url raises `TaskError` and changes nothing; otherwise the result is `Admit` |
| TaskManager.Admit | src/you_get/task_manager.py:467-472 | a url the store already holds raises `IntegrityError` and changes nothing; otherwise the result is `Create` |
| TaskManager.Create | src/you_get/task_manager.py:467-472 | the new task's row is stored under its url, and the new pending task is then registered last and queued as `Enrol` does; the store gains exactly its url |
| TaskManager.NewTaskOp | src/you_get/task_manager.py:536-550 | a missing url or an existing origin raises `TaskError`; any other url succeeds, registering a new task with queues and store untouched |
| TaskManager.FinishWorker | src/you_get/task_manager.py:225-239 | a worker's return updates only its own task's outcome, as `my_download_main` does |
| Seqs.RemoveFirst | src/you_get/task_manager.py:494-495 | `list.remove` of a present element drops its first occurrence and keeps everything before and after it in order; one occurrence leaves the count, the rest stays |
| Seqs.Discard | src/you_get/task_manager.py:492-495 | the guarded removal `if x in q: q.remove(x)`: a present element loses its first occurrence, with the others kept in order; an absent one leaves the list unchanged |
| Seqs.DiscardKeepsOrder | src/you_get/task_manager.py:492-495 | after the guarded removal, the elements outside a set holding the removed one are the same and in the same order as before |
| TaskManager.StopOne | src/you_get/task_manager.py:491-495 | each queue that holds the task loses one entry for it, the first, as `list.remove` does; the entries before and after it stay in order, and a queue without the task is unchanged; nothing outside the queues changes; when no task is in both queues, that stays so and the task leaves both |
| TaskManager.StopEach | src/you_get/task_manager.py:490-495 | an unregistered origin raises `KeyError`, and only then; the queues only lose entries; a task no named origin refers to keeps every entry in both queues, and those entries keep their relative order; when no task is in both queues, each named task leaves both |
| TaskManager.StopTasks | src/you_get/task_manager.py:487-496 | an unknown origin raises `KeyError` with the stops done so far and no tick, and only then; otherwise the stops are followed by a tick; registry and stored origins are untouched; when no task is in both queues, the named tasks are out of both after the tick |
| TaskManager.Unregister | src/you_get/task_manager.py:577-579 | the loop succeeds exactly when every origin is registered and named once; the registry loses exactly those origins |
| TaskManager.RemoveTasks | src/you_get/task_manager.py:571-580 | it fails exactly on an unknown or repeated origin; on success the queues and task objects are those `stop_tasks` leaves, the named origins leave the registry and the store, nothing else leaves, and every remaining row is as `stop_tasks` left it |
| TaskManager.Outcomes | src/you_get/task_manager.py:557-569 | the filter keeps exactly the registered tasks whose outcome has the requested sign |
| TaskManager.GetSuccessTasks | src/you_get/task_manager.py:557-562 | a registered task is listed exactly when its outcome is positive |
| TaskManager.GetFailedTasks | src/you_get/task_manager.py:564-569 | a registered task is listed exactly when its outcome is negative |
| TaskManager.LoadRow | src/you_get/task_manager.py:587-601 | a row without an origin, or with a registered one, is skipped with no change; otherwise the task is rehydrated; registered origins keep their tasks, idle tasks are untouched and live queued tasks stay queued |
| TaskManager.Restored | src/you_get/task_manager.py:590-593 | a rehydrated task has no bar and no pending save, and carries the row's origin |
| TaskManager.Rehydrate | src/you_get/task_manager.py:590-599 | the task the row describes is registered with its outcome reset if negative; a task that already succeeded is only registered, and one that did not is then queued with `queue_task` |
| TaskManager.RehydrateKeeps | src/you_get/task_manager.py:590-599 | a task that already succeeded joins no queue and one that did not ends up queued; idle tasks are untouched and live queued tasks stay queued |
| TaskManager.LoadTasks | src/you_get/task_manager.py:582-602 | loading registers exactly the origins the rows carry, beside those already registered; the store keeps the same origins; the tasks returned are new objects; the invariants and the cap are kept |
| TaskManager.LoadTasksFreshIds | src/you_get/task_manager.py:586-601 | the tasks a load returns carry consecutive new ids from the first free one, so none is returned twice |
| TaskManager.LoadTasksFrame | src/you_get/task_manager.py:582-602 | loading keeps registered origins bound to their tasks, leaves idle tasks untouched and keeps live queued tasks queued |
| TaskManager.LoadTasksRestoresRows | src/you_get/task_manager.py:582-602 | each row whose origin was not registered ends up registered, under a new id, to the task the row describes, with its outcome reset if negative |
| TaskManager.LoadTasksQueuesNew | src/you_get/task_manager.py:582-602 | when the workers of the tasks loading creates are alive, every such task that has not succeeded is queued once loading ends |
| TaskManager.LoadTasksQueuesRows | src/you_get/task_manager.py:595-596 | when those workers are alive, the task of a row whose outcome is below 1 is queued once loading ends |
| Scenarios.AliveTaskKeepsRunning | src/you_get/task_manager.py:505-508 | a running task whose worker is alive is still running after a tick |
| Scenarios.FinishedTaskLeaves | src/you_get/task_manager.py:509-514 | a finished, non-retryable task that was queued once is in neither queue after a tick |
| Scenarios.FirstFailureIsRetried | src/you_get/task_manager.py:509-513 | a task whose first attempt raises is still queued after the next tick |
| Scenarios.FinalFailureRetires | src/you_get/task_manager.py:509-513 | a task whose last allowed attempt raises is retired at the next tick |
| Scenarios.SuccessRetires | src/you_get/task_manager.py:509-513 | a task whose worker returns normally is retired at the next tick with outcome 1 |
| Scenarios.SuccessAndFailureDisjoint | src/you_get/task_manager.py:557-569 | no task is listed both as a success and as a failure |
| Scenarios.StartTwiceRaises | src/you_get/task_manager.py:457-472 | starting a url neither registered nor stored succeeds, and starting it again then raises `TaskError` and changes nothing |
| Scenarios.QueueRunningRunsTwice | src/you_get/task_manager.py:474-485 | queueing a task that is running with a live worker puts it in the running list a second time |
| Scenarios.TickRunsTwice | src/you_get/task_manager.py:516-525 | a tick over a task that is both running and waiting starts it a second time |

## Left out

- Speed and timestamps in `Task.update` (wall clock, float division) are left out.
- `percent_done` is modelled over exact reals, not floats.
- Threads, `threading.Lock`, `threading.Event` and `TaskBase.start` are left out. The model is sequential: liveness is a parameter and the dirty flag is a bool.
- `Task.finished`, `thread`, `pre_thread_start` and `target` only serve the thread machinery and are left out.
- The SQLite layer is left out: the JSON/latin-1 column encodings, pragmas, the config table, `try_vacuum`, `get_version` and `setup_data_folder`. The store is a map from origin to row.
- Rows whose origin is NULL are left out. They cannot be found by origin, so the store map has no entry for them.
- `get_task_list`'s row order is not modelled. `LoadTasks` takes the rows as a sequence in any order.
- `start_download`'s `KeyError` on task info without a `"url"` key is left out. A missing url is modelled as an absent one (`None`), which returns early.
- `app.attach_download_task` (UI) and the Tk front end (`tkui.py`) are left out.
- The downloader glue in `thread_monkey_patch.py` and `unblock_youku.py` is left out: network, filesystem and `exec` of fetched code.
- Schema.Merge: covers the six options a `Task` reads. Any other keyword that `options.update` would add to the dict is not modelled, and `NewTask` takes the merged record.
- TaskManager.LoadTasksRestoresRows: assumes the rows carry distinct origins, as the store's UNIQUE origin column guarantees.
- TaskManager.LoadTasksQueuesRows: assumes the workers started during loading are still alive at the later ticks of the same load. A worker that finished meanwhile is retired or requeued by those ticks, as `update_task_queue` decides.
- TaskManager.TickStoresFinished: assumes no other running task shares the origin. Two running objects with one origin would both write that row, and the later write wins.
- Tasks.Basename: follows POSIX `os.path.basename` only; the Windows separator rules are not modelled.
- `has_task`, `get_task`, `get_tasks` and `get_running_tasks` are plain reads. They are the `HasTask` and `GetTask` helpers and the manager's fields, and carry no contract of their own.

## Findings

| source | as written | input that shows it | evidently intended | confidence | as-written member | corrected member |
|---|---|---|---|---|---|---|
| src/you_get/task_manager.py:404 | `PriorityQueue.__init__` runs `import itertool` | any construction, `PriorityQueue()` | `import itertools`, so the counter is `itertools.count()` | high; not executed | PriorityQueue.NewAsWritten | PriorityQueue.Empty |
| src/you_get/task_manager.py:413 | `push` calls `self.remove_task(task)` for a task already present, but the method is named `remove` | `push(t, 1)` then `push(t, 2)` | re-pushing removes the old entry, then enters the task afresh | high; not executed | PriorityQueue.PushAsWritten (RepushFailsAsWritten) | PriorityQueue.Push (RepushKeepsOneEntry) |
