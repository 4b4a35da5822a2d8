/**
 * The download scheduler (`TaskManager`). Task objects are kept by identity
 * in `objs`; the registry maps each origin to its task, in insertion order;
 * `running` and `waiting` hold task identities, as the source's lists hold
 * task objects. Whether a worker thread is still alive is supplied by the
 * environment as the set `alive`; starting a task means placing it in
 * `running`.
 */
module TaskManager {
  import opened Results
  import opened Seqs
  import opened Schema
  import opened Store
  import opened Tasks

  type TaskId = nat

  datatype Manager = Manager(
    objs: map<TaskId, Task>,        // every Task object created so far
    nextId: TaskId,                 // identity of the next Task object
    registry: map<string, TaskId>,  // `tasks`: origin -> task
    order: seq<string>,             // insertion order of `tasks`
    running: seq<TaskId>,           // `task_running_queue`
    waiting: seq<TaskId>,           // `task_waiting_queue`, front first
    maxTask: int,
    maxRetry: int,
    db: Db)                         // the task table of the application's database

  datatype Fault =
    | DuplicateTask(origin: string) // `TaskError`: a task for the url already exists
    | NoUrl                         // `TaskError`: no url in the task info
    | KeyError                      // an origin that is not registered
    | StoreFault(error: DbError)    // raised by the store, such as a second row for an origin

  /** The manager after an operation, and what it raised, if anything. */
  datatype Step = Step(m: Manager, fault: Option<Fault>)

  /** A task sits in one of the two queues. */
  predicate Queued(m: Manager, id: TaskId) {
    id in m.running || id in m.waiting
  }

  /** Representation invariant: registry, order and task objects agree; queues hold known objects. */
  ghost predicate Valid(m: Manager) {
    && NoDup(m.order)
    && (forall o :: o in m.registry <==> o in m.order)
    && (forall o :: o in m.registry ==> m.registry[o] in m.objs && m.objs[m.registry[o]].origin == Some(o))
    && (forall id :: id in m.objs ==> id < m.nextId)
    && (forall id :: id in m.running ==> id in m.objs)
    && (forall id :: id in m.waiting ==> id in m.objs)
  }

  /** The concurrency cap holds. */
  ghost predicate Capped(m: Manager) {
    |m.running| <= m.maxTask
  }

  /** No task is both running and waiting, and none appears twice in either. */
  ghost predicate Exclusive(m: Manager) {
    NoDup(m.running + m.waiting)
  }

  /** `TaskManager(app)`: nothing registered, five concurrent tasks, three attempts. */
  function NewManager(db: Db): (m: Manager)
    ensures Valid(m) && Capped(m) && Exclusive(m)
    ensures m.registry == map[] && m.running == [] && m.waiting == []
    ensures m.maxTask == 5 && m.maxRetry == 3 && m.db == db
  {
    Manager(map[], 0, map[], [], [], [], 5, 3, db)
  }

  /** `has_task`. */
  predicate HasTask(m: Manager, origin: string) {
    origin in m.registry
  }

  /** `get_task`: the task registered for an origin, if any. */
  function GetTask(m: Manager, origin: string): Option<TaskId> {
    if origin in m.registry then Some(m.registry[origin]) else None
  }

  // ---------------------------------------------------------------------------
  // Sequence lemmas

  /** Elements taken from a duplicate-free sequence are duplicate-free. */
  lemma NoDupSub<T>(a: seq<T>, b: seq<T>)
    requires multiset(a) <= multiset(b) && NoDup(b)
    ensures NoDup(a)
  {
    forall x | x in a
      ensures multiset(a)[x] <= 1
    {
      assert x in multiset(b);
    }
  }

  /** Discarding `x` from both halves of a duplicate-free pair of queues leaves them duplicate-free and without `x`. */
  lemma DiscardBoth<T>(a: seq<T>, b: seq<T>, x: T)
    requires NoDup(a + b)
    ensures NoDup(Discard(a, x) + Discard(b, x))
    ensures x !in Discard(a, x) && x !in Discard(b, x)
  {
    var a', b' := Discard(a, x), Discard(b, x);
    assert multiset(a' + b') == multiset(a') + multiset(b');
    assert multiset(a + b) == multiset(a) + multiset(b);
    NoDupSub(a' + b', a + b);
    if x in a + b {
      assert multiset(a + b)[x] <= 1;
    }
    assert multiset(a')[x] == 0 && multiset(b')[x] == 0;
  }

  // ---------------------------------------------------------------------------
  // The per-tick reconcile, `update_task_queue`

  /** The running tasks whose worker is still alive, in order. */
  function Survivors(todo: seq<TaskId>, alive: set<TaskId>): (r: seq<TaskId>)
    ensures forall id :: id in r <==> id in todo && id in alive
    ensures multiset(r) <= multiset(todo) && |r| <= |todo|
    decreases |todo|
  {
    if todo == [] then []
    else
      assert todo == [todo[0]] + todo[1..];
      (if todo[0] in alive then [todo[0]] else []) + Survivors(todo[1..], alive)
  }

  /** The finished running tasks with a retryable outcome, in order. */
  function Requeued(todo: seq<TaskId>, alive: set<TaskId>, objs: map<TaskId, Task>, maxRetry: int): (r: seq<TaskId>)
    requires forall id :: id in todo ==> id in objs
    ensures forall id :: id in r <==> id in todo && id !in alive && Retryable(objs[id].success, maxRetry)
    ensures multiset(r) <= multiset(todo)
    decreases |todo|
  {
    if todo == [] then []
    else
      assert todo == [todo[0]] + todo[1..];
      (if todo[0] !in alive && Retryable(objs[todo[0]].success, maxRetry) then [todo[0]] else [])
        + Requeued(todo[1..], alive, objs, maxRetry)
  }

  /** A task finishes either alive or not, so it is never both kept and requeued more often than it runs. */
  lemma {:induction false} SurvivorsRequeuedWithin(todo: seq<TaskId>, alive: set<TaskId>, objs: map<TaskId, Task>, maxRetry: int)
    requires forall id :: id in todo ==> id in objs
    ensures multiset(Survivors(todo, alive)) + multiset(Requeued(todo, alive, objs, maxRetry)) <= multiset(todo)
    decreases |todo|
  {
    if todo != [] {
      var x, rest := todo[0], todo[1..];
      SurvivorsRequeuedWithin(rest, alive, objs, maxRetry);
      var hs := if x in alive then [x] else [];
      var hq := if x !in alive && Retryable(objs[x].success, maxRetry) then [x] else [];
      assert Survivors(todo, alive) == hs + Survivors(rest, alive);
      assert Requeued(todo, alive, objs, maxRetry) == hq + Requeued(rest, alive, objs, maxRetry);
      assert multiset(hs) + multiset(hq) <= multiset{x};
      assert todo == [x] + rest;
      assert multiset(todo) == multiset{x} + multiset(rest);
    }
  }

  /** Which tasks are requeued depends only on their outcomes. */
  lemma {:induction false} RequeuedByOutcome(todo: seq<TaskId>, alive: set<TaskId>,
                                             o1: map<TaskId, Task>, o2: map<TaskId, Task>, maxRetry: int)
    requires forall id :: id in todo ==> id in o1 && id in o2 && o1[id].success == o2[id].success
    ensures Requeued(todo, alive, o1, maxRetry) == Requeued(todo, alive, o2, maxRetry)
    decreases |todo|
  {
    if todo != [] {
      var x := todo[0];
      RequeuedByOutcome(todo[1..], alive, o1, o2, maxRetry);
      assert Retryable(o1[x].success, maxRetry) == Retryable(o2[x].success, maxRetry);
    }
  }

  /** A task differs from another only in what a save touches: progress and the dirty flag. */
  predicate Resaved(t: Task, u: Task) {
    u.(received := t.received, saveEvent := t.saveEvent) == t
  }

  /** Same task objects, each changed at most by saving. */
  ghost predicate SameObjects(a: map<TaskId, Task>, b: map<TaskId, Task>) {
    a.Keys == b.Keys && forall id :: id in a ==> Resaved(a[id], b[id])
  }

  datatype Swept = Swept(objs: map<TaskId, Task>, db: Db, kept: seq<TaskId>, requeued: seq<TaskId>)

  /** The save a sweep performs for one running task: none for a live task with nothing pending. */
  function SweepSave(t: Task, db: Db, isAlive: bool): (s: Saved)
    ensures Resaved(t, s.task) && s.db.Keys == db.Keys
    ensures forall k :: k in db && Some(k) != t.origin ==> s.db[k] == db[k]
    ensures isAlive && !t.saveEvent ==> s.task == t && s.db == db
    ensures !t.saveEvent ==> !s.task.saveEvent
    ensures !isAlive || t.saveEvent ==> !s.task.saveEvent
    ensures (!isAlive || t.saveEvent) && t.origin.Some? && t.origin.value in db ==>
      RowMatches(s.db, t.origin.value, s.task)
    ensures Idle(t) ==> s.task == t
  {
    if isAlive && !t.saveEvent then Saved(t, db, map[])
    else
      assert Idle(t) ==> SaveDb(t, db).task == t by {
        if Idle(t) { SaveKeepsIdle(t, db); }
      }
      assert t.origin.Some? && t.origin.value in db ==> RowMatches(SaveDb(t, db).db, t.origin.value, SaveDb(t, db).task) by {
        if t.origin.Some? && t.origin.value in db { SaveStoresRow(t, db); }
      }
      SaveDb(t, db)
  }

  /**
   * The first half of a tick, over the running tasks in order: a live task is
   * kept, and saved if a save is pending; a finished task is saved and
   * dropped, and requeued when its outcome is retryable.
   */
  function Sweep(objs: map<TaskId, Task>, db: Db, todo: seq<TaskId>, alive: set<TaskId>, maxRetry: int): (r: Swept)
    requires forall id :: id in todo ==> id in objs
    ensures r.objs.Keys == objs.Keys && r.db.Keys == db.Keys
    ensures forall id :: id in r.kept ==> id in todo && id in alive
    ensures forall id :: id in r.requeued ==> id in todo && id !in alive
    ensures forall id :: id in objs && Idle(objs[id]) ==> r.objs[id] == objs[id]
    decreases |todo|
  {
    if todo == [] then Swept(objs, db, [], [])
    else
      var id := todo[0];
      var s := SweepSave(objs[id], db, id in alive);
      var rest := Sweep(objs[id := s.task], s.db, todo[1..], alive, maxRetry);
      if id in alive then
        Swept(rest.objs, rest.db, [id] + rest.kept, rest.requeued)
      else
        Swept(rest.objs, rest.db, rest.kept,
              (if Retryable(s.task.success, maxRetry) then [id] else []) + rest.requeued)
  }

  /** A sweep keeps exactly the live running tasks, in order. */
  lemma {:induction false} SweepKeepsLive(objs: map<TaskId, Task>, db: Db, todo: seq<TaskId>, alive: set<TaskId>, maxRetry: int)
    requires forall id :: id in todo ==> id in objs
    ensures Sweep(objs, db, todo, alive, maxRetry).kept == Survivors(todo, alive)
    decreases |todo|
  {
    if todo != [] {
      var s := SweepSave(objs[todo[0]], db, todo[0] in alive);
      SweepKeepsLive(objs[todo[0] := s.task], s.db, todo[1..], alive, maxRetry);
    }
  }

  /** A sweep requeues exactly the finished running tasks with a retryable outcome, in order. */
  lemma {:induction false} SweepRequeuesRetryable(objs: map<TaskId, Task>, db: Db, todo: seq<TaskId>, alive: set<TaskId>, maxRetry: int)
    requires forall id :: id in todo ==> id in objs
    ensures Sweep(objs, db, todo, alive, maxRetry).requeued == Requeued(todo, alive, objs, maxRetry)
    decreases |todo|
  {
    if todo != [] {
      var s := SweepSave(objs[todo[0]], db, todo[0] in alive);
      var objs' := objs[todo[0] := s.task];
      SweepRequeuesRetryable(objs', s.db, todo[1..], alive, maxRetry);
      RequeuedByOutcome(todo[1..], alive, objs, objs', maxRetry);
      assert s.task.success == objs[todo[0]].success;
    }
  }

  /** A sweep changes task objects only by saving them; finished tasks and tasks with a pending save end up saved. */
  lemma {:induction false} SweepSavesObjects(objs: map<TaskId, Task>, db: Db, todo: seq<TaskId>, alive: set<TaskId>, maxRetry: int)
    requires forall id :: id in todo ==> id in objs
    ensures var r := Sweep(objs, db, todo, alive, maxRetry);
      && SameObjects(objs, r.objs)
      && (forall id :: id in objs && id !in todo ==> r.objs[id] == objs[id])
      && (forall id :: id in objs && !objs[id].saveEvent ==> !r.objs[id].saveEvent)
      && (forall id :: id in todo && (id !in alive || objs[id].saveEvent) ==> !r.objs[id].saveEvent)
      && (forall id :: id in todo && id in alive && !objs[id].saveEvent ==> r.objs[id] == objs[id])
    decreases |todo|
  {
    if todo != [] {
      var s := SweepSave(objs[todo[0]], db, todo[0] in alive);
      SweepSavesObjects(objs[todo[0] := s.task], s.db, todo[1..], alive, maxRetry);
    }
  }

  /** No running task with origin `k` is finished or has a save pending, so a sweep has no reason to write row `k`. */
  ghost predicate QuietRow(objs: map<TaskId, Task>, todo: seq<TaskId>, alive: set<TaskId>, k: string) {
    forall id :: id in todo && id in objs && objs[id].origin == Some(k) ==> id in alive && !objs[id].saveEvent
  }

  /**
   * A sweep writes only the rows of the running tasks' origins, and of those
   * only the rows of a task that finished or has a save pending; it adds or
   * deletes none.
   */
  lemma {:induction false} SweepWritesOwnRows(objs: map<TaskId, Task>, db: Db, todo: seq<TaskId>, alive: set<TaskId>, maxRetry: int)
    requires forall id :: id in todo ==> id in objs
    ensures var r := Sweep(objs, db, todo, alive, maxRetry);
      && r.db.Keys == db.Keys
      && (forall k :: k in db && (forall id :: id in todo ==> objs[id].origin != Some(k)) ==> r.db[k] == db[k])
      && (forall k :: k in db && QuietRow(objs, todo, alive, k) ==> r.db[k] == db[k])
    decreases |todo|
  {
    if todo != [] {
      var j := todo[0];
      var s := SweepSave(objs[j], db, j in alive);
      var objs' := objs[j := s.task];
      SweepWritesOwnRows(objs', s.db, todo[1..], alive, maxRetry);
      forall k | k in db && QuietRow(objs, todo, alive, k)
        ensures QuietRow(objs', todo[1..], alive, k) && s.db[k] == db[k]
      {
        assert forall id :: id in todo[1..] ==> id in todo;
      }
    }
  }

  /** Once a task's row matches it, the rest of a sweep keeps it so, provided no other running task shares its origin. */
  lemma {:induction false} SweepKeepsRowMatch(objs: map<TaskId, Task>, db: Db, todo: seq<TaskId>, alive: set<TaskId>,
                                              maxRetry: int, id: TaskId, o: string)
    requires forall j :: j in todo ==> j in objs
    requires id in objs && objs[id].origin == Some(o) && RowMatches(db, o, objs[id])
    requires forall j :: j in todo && j != id ==> objs[j].origin != Some(o)
    ensures RowMatches(Sweep(objs, db, todo, alive, maxRetry).db, o, Sweep(objs, db, todo, alive, maxRetry).objs[id])
    decreases |todo|
  {
    if todo != [] {
      var j := todo[0];
      var s := SweepSave(objs[j], db, j in alive);
      var objs' := objs[j := s.task];
      if j != id {
        assert s.db[o] == db[o];
      }
      assert forall k :: k in todo[1..] ==> k in todo;
      SweepKeepsRowMatch(objs', s.db, todo[1..], alive, maxRetry, id, o);
    }
  }

  /**
   * A finished running task, or one with a pending save, has its row written
   * by the sweep: afterwards the stored row matches the task, provided the row
   * exists and no other running task shares its origin.
   */
  lemma {:induction false} SweepStoresFinished(objs: map<TaskId, Task>, db: Db, todo: seq<TaskId>, alive: set<TaskId>,
                                               maxRetry: int, id: TaskId, o: string)
    requires forall j :: j in todo ==> j in objs
    requires id in todo && (id !in alive || objs[id].saveEvent)
    requires objs[id].origin == Some(o) && o in db
    requires forall j :: j in todo && j != id ==> objs[j].origin != Some(o)
    ensures RowMatches(Sweep(objs, db, todo, alive, maxRetry).db, o, Sweep(objs, db, todo, alive, maxRetry).objs[id])
    decreases |todo|
  {
    var j := todo[0];
    var s := SweepSave(objs[j], db, j in alive);
    var objs' := objs[j := s.task];
    assert forall k :: k in todo[1..] ==> k in todo;
    if j == id {
      SweepKeepsRowMatch(objs', s.db, todo[1..], alive, maxRetry, id, o);
    } else {
      assert id in todo[1..];
      SweepStoresFinished(objs', s.db, todo[1..], alive, maxRetry, id, o);
    }
  }

  datatype Queues = Queues(running: seq<TaskId>, waiting: seq<TaskId>)

  /**
   * The second half of a tick: while a slot is free and tasks wait, the
   * front waiting task is started.
   */
  function Promote(running: seq<TaskId>, waiting: seq<TaskId>, maxTask: int): (r: Queues)
    ensures |running| <= |r.running| && r.running[..|running|] == running
    ensures r.running[|running|..] + r.waiting == waiting
    ensures |running| <= maxTask ==> |r.running| <= maxTask
    ensures |running| > maxTask ==> r.running == running
    ensures |r.running| >= maxTask || r.waiting == []
  {
    var k := if |running| < maxTask then
               (if maxTask - |running| < |waiting| then maxTask - |running| else |waiting|)
             else 0;
    assert (running + waiting[..k])[|running|..] == waiting[..k];
    SplitJoin(waiting, k);
    Queues(running + waiting[..k], waiting[k..])
  }

  /** Promotion only moves tasks between the queues, so the tick's queues hold no task the sweep did not hand over. */
  lemma TickQueues(running: seq<TaskId>, waiting: seq<TaskId>, kept: seq<TaskId>, requeued: seq<TaskId>, p: Queues)
    requires multiset(kept) + multiset(requeued) <= multiset(running)
    requires |kept| <= |p.running| && p.running[..|kept|] == kept
    requires p.running[|kept|..] + p.waiting == waiting + requeued
    ensures multiset(p.running + p.waiting) <= multiset(running + waiting)
    ensures forall id :: id in p.running || id in p.waiting ==> id in running || id in waiting
    ensures NoDup(running + waiting) ==> NoDup(p.running + p.waiting)
  {
    assert p.running == kept + p.running[|kept|..];
    assert p.running + p.waiting == kept + (waiting + requeued);
    forall id | id in p.running || id in p.waiting
      ensures id in running || id in waiting
    {
      assert id in multiset(p.running + p.waiting);
      assert id in multiset(running + waiting);
      assert id in running + waiting;
    }
    if NoDup(running + waiting) {
      NoDupSub(p.running + p.waiting, running + waiting);
    }
  }

  /** Waiting tasks and live running tasks are still in one of the queues after promotion. */
  lemma TickKeepsQueued(running: seq<TaskId>, waiting: seq<TaskId>, alive: set<TaskId>,
                        kept: seq<TaskId>, requeued: seq<TaskId>, p: Queues)
    requires forall id :: id in running && id in alive ==> id in kept
    requires |kept| <= |p.running| && p.running[..|kept|] == kept
    requires p.running[|kept|..] + p.waiting == waiting + requeued
    ensures forall id :: id in waiting || (id in running && id in alive) ==> id in p.running || id in p.waiting
  {
    forall id | id in waiting || (id in running && id in alive)
      ensures id in p.running || id in p.waiting
    {
      if id in waiting {
        assert id in p.running[|kept|..] + p.waiting;
      } else {
        assert id in p.running[..|kept|];
      }
    }
  }

  /** `update_task_queue`: sweep the running tasks, then fill free slots from the front of the waiting queue. */
  function UpdateTaskQueue(m: Manager, alive: set<TaskId>): (r: Manager)
    requires Valid(m)
    ensures Valid(r)
    ensures r == m.(objs := r.objs, db := r.db, running := r.running, waiting := r.waiting)
    ensures SameObjects(m.objs, r.objs)
    ensures forall id :: id in m.objs && id !in m.running ==> r.objs[id] == m.objs[id]
    ensures r.db.Keys == m.db.Keys
    ensures Capped(m) ==> Capped(r)
    ensures |r.running| >= m.maxTask || r.waiting == []
    ensures var kept := Survivors(m.running, alive);
      && |kept| <= |r.running| && r.running[..|kept|] == kept
      && r.running[|kept|..] + r.waiting == m.waiting + Requeued(m.running, alive, m.objs, m.maxRetry)
    ensures forall id :: id in r.running || id in r.waiting ==> id in m.running || id in m.waiting
    ensures forall id :: id in m.waiting || (id in m.running && id in alive) ==> Queued(r, id)
    ensures forall id :: id in m.objs && Idle(m.objs[id]) ==> r.objs[id] == m.objs[id]
    ensures forall id :: id in m.running && id in alive && !m.objs[id].saveEvent ==> r.objs[id] == m.objs[id]
    ensures forall k :: k in m.db && QuietRow(m.objs, m.running, alive, k) ==> r.db[k] == m.db[k]
    ensures Exclusive(m) ==> Exclusive(r)
  {
    var s := Sweep(m.objs, m.db, m.running, alive, m.maxRetry);
    SweepKeepsLive(m.objs, m.db, m.running, alive, m.maxRetry);
    SweepRequeuesRetryable(m.objs, m.db, m.running, alive, m.maxRetry);
    SweepSavesObjects(m.objs, m.db, m.running, alive, m.maxRetry);
    SweepWritesOwnRows(m.objs, m.db, m.running, alive, m.maxRetry);
    SurvivorsRequeuedWithin(m.running, alive, m.objs, m.maxRetry);
    var p := Promote(s.kept, m.waiting + s.requeued, m.maxTask);
    TickQueues(m.running, m.waiting, s.kept, s.requeued, p);
    TickKeepsQueued(m.running, m.waiting, alive, s.kept, s.requeued, p);
    m.(objs := s.objs, db := s.db, running := p.running, waiting := p.waiting)
  }

  /**
   * A tick writes the row of each running task that finished or has a save
   * pending: afterwards the stored row matches the task and no save is
   * pending, provided the row exists and no other running task shares the
   * origin.
   */
  lemma TickStoresFinished(m: Manager, alive: set<TaskId>, id: TaskId)
    requires Valid(m) && id in m.running && (id !in alive || m.objs[id].saveEvent)
    requires m.objs[id].origin.Some? && m.objs[id].origin.value in m.db
    requires forall j :: j in m.running && j != id ==> m.objs[j].origin != m.objs[id].origin
    ensures var r := UpdateTaskQueue(m, alive);
      RowMatches(r.db, m.objs[id].origin.value, r.objs[id]) && !r.objs[id].saveEvent
  {
    SweepStoresFinished(m.objs, m.db, m.running, alive, m.maxRetry, id, m.objs[id].origin.value);
    SweepSavesObjects(m.objs, m.db, m.running, alive, m.maxRetry);
  }

  // ---------------------------------------------------------------------------
  // Queueing and creation

  /** The outcome a manual requeue leaves: a failure count is reset to a fresh start. */
  function ResetOutcome(success: int): int {
    if success < 0 then 0 else success
  }

  /** The tail of `queue_task`: the task joins the back of the waiting queue and a tick runs. */
  function AppendAndTick(m: Manager, id: TaskId, alive: set<TaskId>): (r: Manager)
    requires Valid(m) && id in m.objs && id !in m.waiting
    ensures Valid(r)
    ensures r == UpdateTaskQueue(m.(waiting := m.waiting + [id]), alive)
    ensures r == m.(objs := r.objs, db := r.db, running := r.running, waiting := r.waiting)
    ensures SameObjects(m.objs, r.objs) && r.db.Keys == m.db.Keys
    ensures forall j :: j in m.objs && j !in m.running ==> r.objs[j] == m.objs[j]
    ensures Queued(r, id)
    ensures Capped(m) ==> Capped(r)
    ensures Exclusive(m) && id !in m.running ==> Exclusive(r)
  {
    var m2 := m.(waiting := m.waiting + [id]);
    assert Exclusive(m) && id !in m.running ==> Exclusive(m2) by {
      if Exclusive(m) && id !in m.running {
        assert m2.running + m2.waiting == (m.running + m.waiting) + [id];
        NoDupSnoc(m.running + m.waiting, id);
      }
    }
    var r := UpdateTaskQueue(m2, alive);
    assert id in m2.waiting;
    r
  }

  /**
   * `queue_task` on a task object: a negative outcome is reset to 0; a task
   * already waiting is left where it is; otherwise it joins the back of the
   * waiting queue and a tick runs. Only the waiting queue is checked, so a
   * running task is queued again.
   */
  function QueueTask(m: Manager, id: TaskId, alive: set<TaskId>): (r: Manager)
    requires Valid(m) && id in m.objs
    ensures Valid(r)
    ensures r == m.(objs := r.objs, db := r.db, running := r.running, waiting := r.waiting)
    ensures r.objs.Keys == m.objs.Keys && r.db.Keys == m.db.Keys
    ensures forall j :: j in m.objs ==>
      r.objs[j].success == (if j == id then ResetOutcome(m.objs[j].success) else m.objs[j].success)
    ensures id !in m.running ==> r.objs[id] == m.objs[id].(success := ResetOutcome(m.objs[id].success))
    ensures id in m.waiting ==> r == ResetTask(m, id)
    ensures id in m.waiting ==> r.running == m.running && r.waiting == m.waiting && r.db == m.db
    ensures id !in m.waiting ==> r == UpdateTaskQueue(ResetTask(m, id).(waiting := m.waiting + [id]), alive)
    ensures Queued(r, id)
    ensures forall j :: j in m.waiting || (j in m.running && j in alive) ==> Queued(r, j)
    ensures forall j :: j in m.objs && j != id && Idle(m.objs[j]) ==> r.objs[j] == m.objs[j]
    ensures Capped(m) ==> Capped(r)
    ensures Exclusive(m) && id !in m.running ==> Exclusive(r)
  {
    var m1 := ResetTask(m, id);
    if id in m1.waiting then m1
    else
      var r := AppendAndTick(m1, id, alive);
      assert forall j :: j in m1.objs ==> r.objs[j].success == m1.objs[j].success by {
        forall j | j in m1.objs
          ensures r.objs[j].success == m1.objs[j].success
        {
          assert Resaved(m1.objs[j], r.objs[j]);
        }
      }
      r
  }

  /** The outcome reset `queue_task` applies to the task object. */
  function ResetTask(m: Manager, id: TaskId): (r: Manager)
    requires Valid(m) && id in m.objs
    ensures Valid(r) && r == m.(objs := r.objs) && r.objs.Keys == m.objs.Keys
    ensures r.objs[id] == m.objs[id].(success := ResetOutcome(m.objs[id].success))
    ensures forall j :: j in m.objs && j != id ==> r.objs[j] == m.objs[j]
    ensures Capped(r) == Capped(m) && Exclusive(r) == Exclusive(m)
  {
    var t := m.objs[id];
    m.(objs := m.objs[id := t.(success := ResetOutcome(t.success))])
  }

  /** `queue_task` on an origin: an unknown origin is ignored. */
  function QueueOrigin(m: Manager, origin: string, alive: set<TaskId>): (r: Manager)
    requires Valid(m)
    ensures origin !in m.registry ==> r == m
    ensures origin in m.registry ==> r == QueueTask(m, m.registry[origin], alive)
  {
    if origin in m.registry then QueueTask(m, m.registry[origin], alive) else m
  }

  /** Registers a new task object under its origin. */
  function Register(m: Manager, origin: string, t: Task): (r: Manager)
    requires Valid(m) && origin !in m.registry && t.origin == Some(origin)
    ensures Valid(r) && r.registry == m.registry[origin := m.nextId] && r.order == m.order + [origin]
    ensures r.objs == m.objs[m.nextId := t] && r.nextId == m.nextId + 1
    ensures r.running == m.running && r.waiting == m.waiting && r.db == m.db
    ensures r.maxTask == m.maxTask && r.maxRetry == m.maxRetry
  {
    var r := m.(objs := m.objs[m.nextId := t], nextId := m.nextId + 1,
                registry := m.registry[origin := m.nextId], order := m.order + [origin]);
    assert multiset(r.order) == multiset(m.order) + multiset{origin};
    r
  }

  /** Registers a new task and queues it. */
  function Enrol(m: Manager, origin: string, t: Task, alive: set<TaskId>): (r: Manager)
    requires Valid(m) && origin !in m.registry && t.origin == Some(origin)
    ensures r == QueueTask(Register(m, origin, t), m.nextId, alive)
    ensures Valid(r) && r.registry == m.registry[origin := m.nextId] && r.order == m.order + [origin]
    ensures r.objs[m.nextId] == t.(success := ResetOutcome(t.success)) && r.nextId == m.nextId + 1
    ensures r.objs.Keys == m.objs.Keys + {m.nextId}
    ensures r.db.Keys == m.db.Keys
    ensures m.nextId in r.running || m.nextId in r.waiting
    ensures Capped(m) ==> Capped(r)
    ensures Exclusive(m) ==> Exclusive(r)
  {
    var m1 := Register(m, origin, t);
    assert m.nextId !in m.objs;
    assert m1.objs.Keys == m.objs.Keys + {m.nextId};
    assert m.nextId !in m1.running && m.nextId !in m1.waiting;
    assert m1.objs[m.nextId] == t;
    QueueTask(m1, m.nextId, alive)
  }

  /** The creating half of `start_download` for a url not yet registered: store the row, then register and queue the task. */
  function Admit(m: Manager, url: string, info: Options, alive: set<TaskId>): (r: Step)
    requires Valid(m) && url !in m.registry && info.url == Some(url)
    ensures Valid(r.m)
    ensures url in m.db ==> r == Step(m, Some(StoreFault(IntegrityError)))
    ensures url !in m.db ==> r.fault.None? && r.m == Create(m, url, info, alive)
    ensures Capped(m) ==> Capped(r.m)
    ensures Exclusive(m) ==> Exclusive(r.m)
  {
    match AddTask(m.db, GetDatabaseData(NewTask(info)))
    case Err(e) => Step(m, Some(StoreFault(e)))
    case Ok(_) => Step(Create(m, url, info, alive), None)
  }

  /** A new task's row is stored under its url, and the task registered and queued. */
  function Create(m: Manager, url: string, info: Options, alive: set<TaskId>): (r: Manager)
    requires Valid(m) && url !in m.registry && url !in m.db && info.url == Some(url)
    ensures r == Enrol(m.(db := m.db[url := GetDatabaseData(NewTask(info))]), url, NewTask(info), alive)
    ensures Valid(r)
    ensures r.registry == m.registry[url := m.nextId] && r.order == m.order + [url]
    ensures r.objs[m.nextId] == NewTask(info)
    ensures r.db.Keys == m.db.Keys + {url}
    ensures m.nextId in r.running || m.nextId in r.waiting
    ensures Capped(m) ==> Capped(r)
    ensures Exclusive(m) ==> Exclusive(r)
  {
    var t := NewTask(info);
    var db' := m.db[url := GetDatabaseData(t)];
    assert db'.Keys == m.db.Keys + {url};
    var m1 := WithDb(m, db');
    var r := Enrol(m1, url, t, alive);
    assert r.objs[m.nextId] == t;
    r
  }

  /** Replaces the store behind a manager; the store is not part of validity. */
  function WithDb(m: Manager, db: Db): (r: Manager)
    requires Valid(m)
    ensures Valid(r) && r == m.(db := db)
    ensures Capped(r) == Capped(m) && Exclusive(r) == Exclusive(m)
  {
    m.(db := db)
  }

  /**
   * `start_download`: an empty url does nothing; a registered url raises
   * `TaskError`; a url the store already holds raises `IntegrityError`;
   * otherwise the task's row is stored, the task registered and queued.
   */
  function StartDownload(m: Manager, info: Options, alive: set<TaskId>): (r: Step)
    requires Valid(m)
    ensures Valid(r.m)
    ensures info.url.None? || info.url == Some("") ==> r == Step(m, None)
    ensures info.url.Some? && info.url.value != "" && info.url.value in m.registry ==>
      r == Step(m, Some(DuplicateTask(info.url.value)))
    ensures info.url.Some? && info.url.value != "" && info.url.value !in m.registry ==>
      r == Admit(m, info.url.value, info, alive)
    ensures Capped(m) ==> Capped(r.m)
    ensures Exclusive(m) ==> Exclusive(r.m)
  {
    match info.url
    case None => Step(m, None)
    case Some(url) =>
      if url == "" then Step(m, None)
      else if url in m.registry then Step(m, Some(DuplicateTask(url)))
      else Admit(m, url, info, alive)
  }

  /** `new_task`: registers a task without storing or queueing it; no url or a registered url raises `TaskError`. */
  function NewTaskOp(m: Manager, info: Options): (r: Result<Manager, Fault>)
    requires Valid(m)
    ensures info.url.None? ==> r == Err(NoUrl)
    ensures info.url.Some? && info.url.value in m.registry ==> r == Err(DuplicateTask(info.url.value))
    ensures info.url.Some? && info.url.value !in m.registry ==> r.Ok?
    ensures r.Ok? ==>
      && Valid(r.value) && r.value.registry == m.registry[info.url.value := m.nextId]
      && r.value.objs[m.nextId] == NewTask(info)
      && r.value.running == m.running && r.value.waiting == m.waiting && r.value.db == m.db
  {
    match info.url
    case None => Err(NoUrl)
    case Some(url) =>
      if url in m.registry then Err(DuplicateTask(url)) else Ok(Register(m, url, NewTask(info)))
  }

  // ---------------------------------------------------------------------------
  // Worker completion

  /** A worker thread returns: its task's outcome is updated as `my_download_main` does. */
  function FinishWorker(m: Manager, id: TaskId, raised: bool): (r: Manager)
    requires Valid(m) && id in m.objs
    ensures Valid(r) && r.objs.Keys == m.objs.Keys
    ensures r.objs[id] == WorkerOutcome(m.objs[id], raised)
    ensures r == m.(objs := r.objs)
    ensures forall j :: j in m.objs && j != id ==> r.objs[j] == m.objs[j]
  {
    m.(objs := m.objs[id := WorkerOutcome(m.objs[id], raised)])
  }

  // ---------------------------------------------------------------------------
  // Stopping and removing

  /** `b`'s queues hold task `j` exactly as often as `a`'s do. */
  ghost predicate Untouched(a: Manager, b: Manager, j: TaskId) {
    multiset(b.running)[j] == multiset(a.running)[j] && multiset(b.waiting)[j] == multiset(a.waiting)[j]
  }

  /** One origin's task leaves both queues, as the guarded removals in `stop_tasks` do. */
  function StopOne(m: Manager, id: TaskId): (r: Manager)
    requires Valid(m)
    ensures Valid(r) && r == m.(running := r.running, waiting := r.waiting)
    ensures multiset(r.running) == multiset(m.running) - multiset{id}
    ensures multiset(r.waiting) == multiset(m.waiting) - multiset{id}
    ensures forall j :: j in r.running ==> j in m.running
    ensures forall j :: j in r.waiting ==> j in m.waiting
    ensures |r.running| <= |m.running|
    ensures r.running == Discard(m.running, id) && r.waiting == Discard(m.waiting, id)
    ensures Strip(r.running, {id}) == Strip(m.running, {id}) && Strip(r.waiting, {id}) == Strip(m.waiting, {id})
    ensures Exclusive(m) ==> Exclusive(r) && id !in r.running && id !in r.waiting
  {
    var r := m.(waiting := Discard(m.waiting, id), running := Discard(m.running, id));
    DiscardKeepsOrder(m.running, id, {id});
    DiscardKeepsOrder(m.waiting, id, {id});
    assert Exclusive(m) ==> Exclusive(r) && id !in r.running && id !in r.waiting by {
      if Exclusive(m) {
        DiscardBoth(m.running, m.waiting, id);
      }
    }
    r
  }

  /** The tasks that the origins in `os` name, as far as the registry knows them. */
  ghost function Named(m: Manager, os: seq<string>): set<TaskId> {
    set o | o in os && o in m.registry :: m.registry[o]
  }

  /** The order facts of one removal and of the later ones combine. */
  lemma NamedStep(m: Manager, m1: Manager, r: Manager, os: seq<string>)
    requires |os| > 0 && os[0] in m.registry && m1.registry == m.registry
    requires Strip(m1.running, {m.registry[os[0]]}) == Strip(m.running, {m.registry[os[0]]})
    requires Strip(m1.waiting, {m.registry[os[0]]}) == Strip(m.waiting, {m.registry[os[0]]})
    requires Strip(r.running, Named(m1, os[1..])) == Strip(m1.running, Named(m1, os[1..]))
    requires Strip(r.waiting, Named(m1, os[1..])) == Strip(m1.waiting, Named(m1, os[1..]))
    ensures Strip(r.running, Named(m, os)) == Strip(m.running, Named(m, os))
    ensures Strip(r.waiting, Named(m, os)) == Strip(m.waiting, Named(m, os))
  {
    var id := m.registry[os[0]];
    assert Named(m, os) == {id} + Named(m1, os[1..]) by {
      assert forall o :: o in os <==> o == os[0] || o in os[1..];
    }
    StripChain(m.running, m1.running, r.running, id, Named(m1, os[1..]));
    StripChain(m.waiting, m1.waiting, r.waiting, id, Named(m1, os[1..]));
  }

  /** A task the first removal leaves alone, and the later ones too, keeps its queue entries throughout. */
  lemma UntouchedStep(m: Manager, m1: Manager, r: Manager, os: seq<string>)
    requires |os| > 0 && os[0] in m.registry && m1.registry == m.registry
    requires multiset(m1.running) == multiset(m.running) - multiset{m.registry[os[0]]}
    requires multiset(m1.waiting) == multiset(m.waiting) - multiset{m.registry[os[0]]}
    requires forall j :: (forall o :: o in os[1..] && o in m1.registry ==> m1.registry[o] != j) ==> Untouched(m1, r, j)
    ensures forall j :: (forall o :: o in os && o in m.registry ==> m.registry[o] != j) ==> Untouched(m, r, j)
  {
    forall j | forall o :: o in os && o in m.registry ==> m.registry[o] != j
      ensures Untouched(m, r, j)
    {
      assert m.registry[os[0]] != j;
      assert Untouched(m, m1, j);
      assert forall o :: o in os[1..] && o in m1.registry ==> m1.registry[o] != j by {
        assert forall o :: o in os[1..] ==> o in os;
      }
      assert Untouched(m1, r, j);
    }
  }

  /** The loop of `stop_tasks`: each origin's task leaves the waiting and running queues; an unknown origin raises `KeyError` at that point. */
  function StopEach(m: Manager, os: seq<string>): (r: Step)
    requires Valid(m)
    ensures Valid(r.m)
    ensures r.fault.None? <==> forall o :: o in os ==> o in m.registry
    ensures r.fault.Some? ==> r.fault.value == KeyError
    ensures r.m == m.(running := r.m.running, waiting := r.m.waiting)
    ensures forall j :: j in r.m.running ==> j in m.running
    ensures forall j :: j in r.m.waiting ==> j in m.waiting
    ensures |r.m.running| <= |m.running|
    ensures multiset(r.m.running) <= multiset(m.running) && multiset(r.m.waiting) <= multiset(m.waiting)
    ensures forall j :: (forall o :: o in os && o in m.registry ==> m.registry[o] != j) ==> Untouched(m, r.m, j)
    ensures Strip(r.m.running, Named(m, os)) == Strip(m.running, Named(m, os))
    ensures Strip(r.m.waiting, Named(m, os)) == Strip(m.waiting, Named(m, os))
    ensures Exclusive(m) ==> Exclusive(r.m)
    ensures Exclusive(m) && r.fault.None? ==>
      forall o :: o in os ==> m.registry[o] !in r.m.running && m.registry[o] !in r.m.waiting
    decreases |os|
  {
    if os == [] then Step(m, None)
    else if os[0] !in m.registry then Step(m, Some(KeyError))
    else
      var m1 := StopOne(m, m.registry[os[0]]);
      var r := StopEach(m1, os[1..]);
      assert forall o :: o in os ==> o == os[0] || o in os[1..];
      UntouchedStep(m, m1, r.m, os);
      NamedStep(m, m1, r.m, os);
      r
  }

  /** `stop_tasks`: takes the named tasks out of both queues, then runs a tick. */
  function StopTasks(m: Manager, origins: Origins, alive: set<TaskId>): (r: Step)
    requires Valid(m)
    ensures Valid(r.m) && r.m.registry == m.registry && r.m.order == m.order
    ensures r.fault.None? <==> forall o :: o in OriginList(origins) ==> o in m.registry
    ensures r.fault.Some? ==> r.fault.value == KeyError
    ensures r.m.db.Keys == m.db.Keys
    ensures Capped(m) ==> Capped(r.m)
    ensures Exclusive(m) ==> Exclusive(r.m)
    ensures Exclusive(m) && r.fault.None? ==>
      forall o :: o in OriginList(origins) ==> m.registry[o] !in r.m.running && m.registry[o] !in r.m.waiting
    ensures r.fault.Some? ==> r == StopEach(m, OriginList(origins))
    ensures r.fault.None? ==> r.m == UpdateTaskQueue(StopEach(m, OriginList(origins)).m, alive)
  {
    var s := StopEach(m, OriginList(origins));
    if s.fault.Some? then s else Step(UpdateTaskQueue(s.m, alive), None)
  }

  /** The loop of `remove_tasks` after stopping: each origin leaves the registry; one already gone raises `KeyError`. */
  function Unregister(m: Manager, os: seq<string>): (r: Step)
    requires Valid(m)
    ensures Valid(r.m)
    ensures r.fault.None? <==> (forall o :: o in os ==> o in m.registry) && NoDup(os)
    ensures r.fault.Some? ==> r.fault.value == KeyError
    ensures r.m == m.(registry := r.m.registry, order := r.m.order)
    ensures forall o :: o in r.m.registry ==> o in m.registry && r.m.registry[o] == m.registry[o]
    ensures r.fault.None? ==> forall o :: o in r.m.registry <==> o in m.registry && o !in os
    decreases |os|
  {
    if os == [] then Step(m, None)
    else if os[0] !in m.registry then
      Step(m, Some(KeyError))
    else
      var o := os[0];
      DiscardAll(m.order, o);
      var m1 := m.(registry := m.registry - {o}, order := Discard(m.order, o));
      var r := Unregister(m1, os[1..]);
      NoDupCons(os);
      assert forall x :: x in os <==> x == o || x in os[1..];
      r
  }

  /**
   * `remove_tasks`: stops the tasks, drops them from the registry and deletes
   * their rows. A fault in stopping or unregistering ends it there, leaving
   * the store untouched.
   */
  function RemoveTasks(m: Manager, origins: Origins, alive: set<TaskId>): (r: Step)
    requires Valid(m)
    ensures Valid(r.m)
    ensures r.fault.None? <==> (forall o :: o in OriginList(origins) ==> o in m.registry) && NoDup(OriginList(origins))
    ensures r.fault.None? ==> forall o :: o in r.m.registry <==> o in m.registry && o !in OriginList(origins)
    ensures r.fault.None? ==> forall k :: k in r.m.db <==> k in m.db && k !in OriginList(origins)
    ensures Exclusive(m) && r.fault.None? ==>
      forall o :: o in OriginList(origins) ==> m.registry[o] !in r.m.running && m.registry[o] !in r.m.waiting
    ensures r.fault.None? ==> var s := StopTasks(m, origins, alive).m;
      && r.m.running == s.running && r.m.waiting == s.waiting && r.m.objs == s.objs
      && forall k :: k in r.m.db ==> r.m.db[k] == s.db[k]
    ensures Capped(m) ==> Capped(r.m)
    ensures Exclusive(m) ==> Exclusive(r.m)
  {
    var os := OriginList(origins);
    var s := StopTasks(m, origins, alive);
    if s.fault.Some? then s
    else
      var u := Unregister(s.m, os);
      if u.fault.Some? then u
      else Step(u.m.(db := DeleteTask(u.m.db, origins)), None)
  }

  // ---------------------------------------------------------------------------
  // Queries

  /** The tasks of the given origins whose outcome satisfies `success > 0` (or `< 0` when `failed`). */
  function Outcomes(m: Manager, os: seq<string>, failed: bool): (r: seq<TaskId>)
    requires Valid(m) && forall o :: o in os ==> o in m.registry
    ensures forall id :: id in r <==>
      exists o :: o in os && m.registry[o] == id && (if failed then m.objs[id].success < 0 else m.objs[id].success > 0)
    ensures |r| <= |os|
    decreases |os|
  {
    if os == [] then []
    else
      var id := m.registry[os[0]];
      var rest := Outcomes(m, os[1..], failed);
      assert forall o :: o in os <==> o == os[0] || o in os[1..];
      if (if failed then m.objs[id].success < 0 else m.objs[id].success > 0) then [id] + rest else rest
  }

  /** `get_success_tasks`: the tasks that finished successfully. */
  function GetSuccessTasks(m: Manager): (r: seq<TaskId>)
    requires Valid(m)
    ensures forall o :: o in m.registry ==> (m.registry[o] in r <==> m.objs[m.registry[o]].success > 0)
    ensures forall id :: id in r ==> id in m.objs && m.objs[id].success > 0
  {
    Outcomes(m, m.order, false)
  }

  /** `get_failed_tasks`: the tasks with failures. */
  function GetFailedTasks(m: Manager): (r: seq<TaskId>)
    requires Valid(m)
    ensures forall o :: o in m.registry ==> (m.registry[o] in r <==> m.objs[m.registry[o]].success < 0)
    ensures forall id :: id in r ==> id in m.objs && m.objs[id].success < 0
  {
    Outcomes(m, m.order, true)
  }

  // ---------------------------------------------------------------------------
  // Rehydration

  datatype Loaded = Loaded(m: Manager, ids: seq<TaskId>)

  /**
   * One row of `load_tasks_from_database`: a row without an origin or with a
   * registered one raises `TaskError`, which is logged and skipped; otherwise
   * the task the row describes is rehydrated.
   */
  function LoadRow(m: Manager, row: Row, alive: set<TaskId>): (r: Loaded)
    requires Valid(m) && SchemaRow(row)
    ensures Valid(r.m) && r.m.db.Keys == m.db.Keys && r.m.nextId == m.nextId + |r.ids|
    ensures m.objs.Keys <= r.m.objs.Keys && forall id :: id in r.ids ==> id in r.m.objs && id == m.nextId
    ensures r.ids == [] || r.ids == [m.nextId]
    ensures RowOrigin(row).None? || RowOrigin(row).value in m.registry ==> r == Loaded(m, [])
    ensures RowOrigin(row).Some? && RowOrigin(row).value !in m.registry ==>
      r == Loaded(Rehydrate(m, RowOrigin(row).value, row, alive), [m.nextId])
    ensures forall o :: o in r.m.registry <==> o in m.registry || RowOrigin(row) == Some(o)
    ensures forall o :: o in m.registry ==> r.m.registry[o] == m.registry[o]
    ensures forall j :: j in m.objs && Idle(m.objs[j]) ==> r.m.objs[j] == m.objs[j]
    ensures forall j :: j in alive && Queued(m, j) ==> Queued(r.m, j)
    ensures Capped(m) ==> Capped(r.m)
    ensures Exclusive(m) ==> Exclusive(r.m)
  {
    match RowOrigin(row)
    case None => Loaded(m, [])
    case Some(o) =>
      if o in m.registry then Loaded(m, [])
      else
        RehydrateKeeps(m, o, row, alive);
        Loaded(Rehydrate(m, o, row, alive), [m.nextId])
  }

  /** The task a stored row is rehydrated to: its outcome is reset if negative. */
  function Restored(row: Row): (t: Task)
    requires SchemaRow(row)
    ensures Idle(t) && TextOrNull(t.origin) == row[OriginCol]
  {
    TaskFromRow(row).(success := ResetOutcome(row[SuccessCol].i))
  }

  /** A rehydrated task has not succeeded exactly when its row says so. */
  lemma RestoredOutcome(row: Row)
    requires SchemaRow(row)
    ensures Restored(row).success < 1 <==> row[SuccessCol].i < 1
  {
  }

  /**
   * A task is built from a stored row and registered under the row's origin;
   * its outcome is reset if negative, and it is queued unless it already
   * succeeded.
   */
  function Rehydrate(m: Manager, o: string, row: Row, alive: set<TaskId>): (r: Manager)
    requires Valid(m) && SchemaRow(row) && RowOrigin(row) == Some(o) && o !in m.registry
    ensures Valid(r) && r.db.Keys == m.db.Keys && r.nextId == m.nextId + 1
    ensures r.objs.Keys == m.objs.Keys + {m.nextId}
    ensures r.registry == m.registry[o := m.nextId] && r.order == m.order + [o]
    ensures r.objs[m.nextId] == Restored(row)
    ensures row[SuccessCol].i >= 1 ==> r == Register(m, o, TaskFromRow(row))
    ensures row[SuccessCol].i < 1 ==> r == QueueTask(Register(m, o, TaskFromRow(row)), m.nextId, alive)
    ensures Capped(m) ==> Capped(r)
    ensures Exclusive(m) ==> Exclusive(r)
  {
    var t := TaskFromRow(row);
    assert t.origin == Some(o) && t.success == row[SuccessCol].i;
    if t.success < 1 then Enrol(m, o, t, alive)
    else
      var r := Register(m, o, t);
      assert r.objs.Keys == m.objs.Keys + {m.nextId};
      r
  }

  /**
   * Rehydrating leaves the rest in place: a task that already succeeded joins
   * no queue, one that did not is queued, idle tasks are not touched and a
   * queued task that is alive stays queued.
   */
  lemma RehydrateKeeps(m: Manager, o: string, row: Row, alive: set<TaskId>)
    requires Valid(m) && SchemaRow(row) && RowOrigin(row) == Some(o) && o !in m.registry
    ensures var r := Rehydrate(m, o, row, alive);
      && (row[SuccessCol].i >= 1 ==> r.running == m.running && r.waiting == m.waiting)
      && (row[SuccessCol].i < 1 ==> Queued(r, m.nextId))
      && (forall j :: j in m.objs && Idle(m.objs[j]) ==> r.objs[j] == m.objs[j])
      && (forall j :: j in alive && Queued(m, j) ==> Queued(r, j))
  {
    var t := TaskFromRow(row);
    var m1 := Register(m, o, t);
    if row[SuccessCol].i < 1 {
      assert m.nextId !in m.objs && m.nextId in m1.objs;
      assert forall j :: j in m.objs ==> m1.objs[j] == m.objs[j];
      assert forall j :: Queued(m, j) ==> Queued(m1, j);
    }
  }

  /** The origins the given rows carry. */
  function RowOrigins(rows: seq<Row>): (s: set<string>)
    ensures forall o :: o in s <==> exists i :: 0 <= i < |rows| && RowOrigin(rows[i]) == Some(o)
    decreases |rows|
  {
    if rows == [] then {}
    else
      var rest := RowOrigins(rows[1..]);
      assert forall i :: 0 < i < |rows| ==> rows[i] == rows[1..][i - 1];
      assert forall i :: 0 <= i < |rows| - 1 ==> rows[1..][i] == rows[i + 1];
      match RowOrigin(rows[0])
      case None => rest
      case Some(o) => {o} + rest
  }

  /** `load_tasks_from_database` over the rows the store lists, in order; returns the tasks built. */
  function LoadTasks(m: Manager, rows: seq<Row>, alive: set<TaskId>): (r: Loaded)
    requires Valid(m) && forall row :: row in rows ==> SchemaRow(row)
    ensures Valid(r.m) && r.m.db.Keys == m.db.Keys
    ensures |r.ids| <= |rows| && r.m.nextId == m.nextId + |r.ids|
    ensures forall o :: o in r.m.registry <==> o in m.registry || o in RowOrigins(rows)
    ensures m.objs.Keys <= r.m.objs.Keys
    ensures forall id :: id in r.ids ==> id in r.m.objs && id >= m.nextId
    ensures Capped(m) ==> Capped(r.m)
    ensures Exclusive(m) ==> Exclusive(r.m)
    decreases |rows|
  {
    if rows == [] then Loaded(m, [])
    else
      var first := LoadRow(m, rows[0], alive);
      var rest := LoadTasks(first.m, rows[1..], alive);
      assert forall id :: id in first.ids + rest.ids <==> id in first.ids || id in rest.ids;
      assert forall o :: o in RowOrigins(rows) <==> RowOrigin(rows[0]) == Some(o) || o in RowOrigins(rows[1..]);
      Loaded(rest.m, first.ids + rest.ids)
  }

  /** A load hands out consecutive ids from the first free one, so no id is handed out twice. */
  lemma {:induction false} LoadTasksFreshIds(m: Manager, rows: seq<Row>, alive: set<TaskId>)
    requires Valid(m) && forall row :: row in rows ==> SchemaRow(row)
    ensures Consecutive(LoadTasks(m, rows, alive).ids, m.nextId) && NoDup(LoadTasks(m, rows, alive).ids)
    decreases |rows|
  {
    if rows == [] {
      ConsecutiveNoDup([], m.nextId);
    } else {
      var first, firstIds := LoadIdsFirst(m, rows, alive);
      LoadTasksFreshIds(first, rows[1..], alive);
      ConsecutiveConcat(firstIds, LoadTasks(first, rows[1..], alive).ids, m.nextId);
    }
  }

  /** The ids a load hands out are those of its first row, followed by those of the rest. */
  lemma LoadIdsFirst(m: Manager, rows: seq<Row>, alive: set<TaskId>) returns (first: Manager, firstIds: seq<TaskId>)
    requires Valid(m) && (forall row :: row in rows ==> SchemaRow(row)) && rows != []
    ensures Valid(first) && (forall row :: row in rows[1..] ==> SchemaRow(row))
    ensures Consecutive(firstIds, m.nextId) && first.nextId == m.nextId + |firstIds|
    ensures LoadTasks(m, rows, alive).ids == firstIds + LoadTasks(first, rows[1..], alive).ids
  {
    var l := LoadRow(m, rows[0], alive);
    first, firstIds := l.m, l.ids;
    assert forall row :: row in rows[1..] ==> row in rows;
    ConsecutiveShort(firstIds, m.nextId);
  }

  /**
   * Loading leaves what was there before in place: registered origins keep
   * their tasks, idle tasks are not touched, and a queued task that is alive
   * stays queued.
   */
  lemma {:induction false} LoadTasksFrame(m: Manager, rows: seq<Row>, alive: set<TaskId>)
    requires Valid(m) && forall row :: row in rows ==> SchemaRow(row)
    ensures var r := LoadTasks(m, rows, alive).m;
      && (forall o :: o in m.registry ==> r.registry[o] == m.registry[o])
      && (forall j :: j in m.objs && Idle(m.objs[j]) ==> r.objs[j] == m.objs[j])
      && (forall j :: j in alive && Queued(m, j) ==> Queued(r, j))
    decreases |rows|
  {
    if rows != [] {
      var first := LoadRow(m, rows[0], alive);
      assert forall row :: row in rows[1..] ==> row in rows;
      LoadTasksFrame(first.m, rows[1..], alive);
      assert LoadTasks(m, rows, alive).m == LoadTasks(first.m, rows[1..], alive).m;
    }
  }

  /** No two rows carry the same origin, as the store's UNIQUE origin column guarantees. */
  ghost predicate DistinctOrigins(rows: seq<Row>) {
    forall i, j :: 0 <= i < j < |rows| && RowOrigin(rows[i]).Some? ==> RowOrigin(rows[i]) != RowOrigin(rows[j])
  }

  /** The first row's task, when rehydrated, keeps its id and its place through the rest of the load. */
  lemma LoadFirstRestored(m: Manager, rows: seq<Row>, alive: set<TaskId>)
    requires Valid(m) && (forall row :: row in rows ==> SchemaRow(row))
    requires rows != [] && RowOrigin(rows[0]).Some? && RowOrigin(rows[0]).value !in m.registry
    ensures var r := LoadTasks(m, rows, alive).m; var o := RowOrigin(rows[0]).value;
      && o in r.registry && r.registry[o] == m.nextId && m.nextId in r.objs
      && r.objs[m.nextId] == Restored(rows[0]) && m.nextId < r.nextId
      && (m.nextId in alive && rows[0][SuccessCol].i < 1 ==> Queued(r, m.nextId))
  {
    var first := LoadRow(m, rows[0], alive);
    var o := RowOrigin(rows[0]).value;
    assert first.m == Rehydrate(m, o, rows[0], alive);
    RehydrateKeeps(m, o, rows[0], alive);
    assert first.m.registry[o] == m.nextId && first.m.objs[m.nextId] == Restored(rows[0]);
    assert rows[0][SuccessCol].i < 1 ==> Queued(first.m, m.nextId);
    assert forall row :: row in rows[1..] ==> row in rows;
    LoadTasksFrame(first.m, rows[1..], alive);
    assert LoadTasks(m, rows, alive).m == LoadTasks(first.m, rows[1..], alive).m;
  }

  /** Loading past a first row that does not carry the given origin. */
  lemma LoadSkipsFirst(m: Manager, rows: seq<Row>, alive: set<TaskId>, o: string) returns (first: Manager)
    requires Valid(m) && (forall row :: row in rows ==> SchemaRow(row))
    requires rows != [] && RowOrigin(rows[0]) != Some(o) && o !in m.registry
    ensures Valid(first) && o !in first.registry && m.nextId <= first.nextId
    ensures forall row :: row in rows[1..] ==> SchemaRow(row)
    ensures LoadTasks(m, rows, alive).m == LoadTasks(first, rows[1..], alive).m
  {
    first := LoadRow(m, rows[0], alive).m;
    assert forall row :: row in rows[1..] ==> row in rows;
  }

  /** The rows after the first still carry distinct origins. */
  lemma TailDistinct(rows: seq<Row>, i: nat)
    requires DistinctOrigins(rows) && 0 < i < |rows|
    ensures DistinctOrigins(rows[1..]) && rows[1..][i - 1] == rows[i]
  {
    forall a, b | 0 <= a < b < |rows[1..]| && RowOrigin(rows[1..][a]).Some?
      ensures RowOrigin(rows[1..][a]) != RowOrigin(rows[1..][b])
    {
      assert rows[1..][a] == rows[a + 1] && rows[1..][b] == rows[b + 1];
    }
  }

  /**
   * Loading rebuilds each row's task: the origin of a row not yet registered
   * ends up registered to the task the row describes, with its outcome reset
   * if negative.
   */
  lemma {:induction false} LoadTasksRestoresRows(m: Manager, rows: seq<Row>, alive: set<TaskId>, i: nat)
    requires Valid(m) && (forall row :: row in rows ==> SchemaRow(row)) && DistinctOrigins(rows)
    requires i < |rows| && RowOrigin(rows[i]).Some? && RowOrigin(rows[i]).value !in m.registry
    ensures var r := LoadTasks(m, rows, alive).m; var o := RowOrigin(rows[i]).value;
      && o in r.registry && m.nextId <= r.registry[o] < r.nextId
      && r.registry[o] in r.objs && r.objs[r.registry[o]] == Restored(rows[i])
    decreases |rows|
  {
    if i == 0 {
      LoadFirstRestored(m, rows, alive);
    } else {
      var o := RowOrigin(rows[i]).value;
      assert RowOrigin(rows[0]) != RowOrigin(rows[i]);
      TailDistinct(rows, i);
      var first := LoadSkipsFirst(m, rows, alive, o);
      LoadTasksRestoresRows(first, rows[1..], alive, i - 1);
    }
  }

  /** Every worker id from `lo` up to, not including, `hi` is alive. */
  ghost predicate AliveBetween(alive: set<TaskId>, lo: nat, hi: nat) {
    forall id :: lo <= id < hi ==> id in alive
  }

  /** Every task of `r` numbered `lo` or above that has not succeeded is queued. */
  ghost predicate QueuedFrom(r: Manager, lo: nat) {
    forall id :: lo <= id < r.nextId && id in r.objs && r.objs[id].success < 1 ==> Queued(r, id)
  }

  /** A run of live worker ids stays live when its lower end moves up. */
  lemma AliveFrom(alive: set<TaskId>, lo: nat, mid: nat, hi: nat)
    requires lo <= mid && AliveBetween(alive, lo, hi)
    ensures AliveBetween(alive, mid, hi) && (lo < mid <= hi ==> lo in alive)
  {
  }

  /** Queuing from `mid` on extends down to `lo` when the one id in between is queued too. */
  lemma QueuedFromBelow(r: Manager, lo: nat, mid: nat)
    requires lo <= mid <= lo + 1 && QueuedFrom(r, mid)
    requires mid > lo ==> lo in r.objs && (r.objs[lo].success < 1 ==> Queued(r, lo))
    ensures QueuedFrom(r, lo)
  {
    forall id | lo <= id < r.nextId && id in r.objs && r.objs[id].success < 1
      ensures Queued(r, id)
    {
      if id < mid {
        assert id == lo;
      }
    }
  }

  /**
   * When the workers loading starts are alive, every task it builds that has
   * not succeeded is in one of the queues once loading is done.
   */
  lemma {:induction false} LoadTasksQueuesNew(m: Manager, rows: seq<Row>, alive: set<TaskId>)
    requires Valid(m) && forall row :: row in rows ==> SchemaRow(row)
    ensures var r := LoadTasks(m, rows, alive).m;
      AliveBetween(alive, m.nextId, r.nextId) ==> QueuedFrom(r, m.nextId)
    decreases |rows|
  {
    if rows != [] {
      var first := LoadRow(m, rows[0], alive).m;
      var r := LoadTasks(m, rows, alive).m;
      assert forall row :: row in rows[1..] ==> row in rows;
      assert r == LoadTasks(first, rows[1..], alive).m;
      assert first.nextId <= m.nextId + 1;
      if AliveBetween(alive, m.nextId, r.nextId) {
        AliveFrom(alive, m.nextId, first.nextId, r.nextId);
        LoadTasksQueuesNew(first, rows[1..], alive);
        if first.nextId > m.nextId {
          LoadFirstQueued(m, rows, alive);
        }
        QueuedFromBelow(r, m.nextId, first.nextId);
      }
    }
  }

  /** The task the first row adds, if it has not succeeded, is still queued after the rest of the load. */
  lemma LoadFirstQueued(m: Manager, rows: seq<Row>, alive: set<TaskId>)
    requires Valid(m) && (forall row :: row in rows ==> SchemaRow(row)) && rows != []
    requires m.nextId in alive && LoadRow(m, rows[0], alive).m.nextId > m.nextId
    ensures var r := LoadTasks(m, rows, alive).m;
      m.nextId in r.objs && (r.objs[m.nextId].success < 1 ==> Queued(r, m.nextId))
  {
    var o := RowOrigin(rows[0]).value;
    var first := LoadRow(m, rows[0], alive).m;
    assert first == Rehydrate(m, o, rows[0], alive);
    RehydrateKeeps(m, o, rows[0], alive);
    assert first.objs[m.nextId] == Restored(rows[0]);
    assert forall row :: row in rows[1..] ==> row in rows;
    LoadTasksFrame(first, rows[1..], alive);
    assert LoadTasks(m, rows, alive).m == LoadTasks(first, rows[1..], alive).m;
  }

  /**
   * When the workers loading starts are alive, a row's task that had not
   * succeeded is in one of the queues once loading is done.
   */
  lemma LoadTasksQueuesRows(m: Manager, rows: seq<Row>, alive: set<TaskId>, i: nat)
    requires Valid(m) && (forall row :: row in rows ==> SchemaRow(row)) && DistinctOrigins(rows)
    requires i < |rows| && SchemaRow(rows[i]) && RowOrigin(rows[i]).Some? && RowOrigin(rows[i]).value !in m.registry
    requires rows[i][SuccessCol].i < 1
    requires AliveBetween(alive, m.nextId, LoadTasks(m, rows, alive).m.nextId)
    ensures var r := LoadTasks(m, rows, alive).m; var o := RowOrigin(rows[i]).value;
      o in r.registry && Queued(r, r.registry[o])
  {
    LoadTasksRestoresRows(m, rows, alive, i);
    RestoredOutcome(rows[i]);
    LoadTasksQueuesNew(m, rows, alive);
  }
}
