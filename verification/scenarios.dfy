/**
 * Whole-scheduler consequences of the operations in `TaskManager`: how a
 * worker's outcome decides, at the next tick, whether its task keeps running,
 * is retried or is retired; what a repeated request does; and what queueing a
 * task that is already running does.
 */
module Scenarios {
  import opened Results
  import opened Seqs
  import opened Schema
  import opened Tasks
  import opened TaskManager

  /** A task whose worker is still alive keeps its place at a tick. */
  lemma {:induction false} AliveTaskKeepsRunning(m: Manager, id: TaskId, alive: set<TaskId>)
    requires Valid(m) && id in m.running && id in alive
    ensures id in UpdateTaskQueue(m, alive).running
  {
    var r := UpdateTaskQueue(m, alive);
    var kept := Survivors(m.running, alive);
    assert id in kept;
    assert id in r.running[..|kept|];
  }

  /** A finished task that is not requeued leaves both queues at the next tick, provided it was queued once. */
  lemma {:induction false} FinishedTaskLeaves(m: Manager, id: TaskId, alive: set<TaskId>)
    requires Valid(m) && Exclusive(m) && id in m.running && id !in alive
    requires !Retryable(m.objs[id].success, m.maxRetry)
    ensures !Queued(UpdateTaskQueue(m, alive), id)
  {
    var r := UpdateTaskQueue(m, alive);
    var kept := Survivors(m.running, alive);
    var back := Requeued(m.running, alive, m.objs, m.maxRetry);
    assert id !in m.waiting by {
      assert multiset(m.running + m.waiting)[id] <= 1;
      assert multiset(m.running + m.waiting) == multiset(m.running) + multiset(m.waiting);
    }
    assert id !in kept && id !in back;
    assert id !in r.running[|kept|..] + r.waiting;
    SplitJoin(r.running, |kept|);
  }

  /** A task whose first attempt raises is retried: it is still queued after the next tick. */
  lemma {:induction false} FirstFailureIsRetried(m: Manager, id: TaskId, alive: set<TaskId>)
    requires Valid(m) && id in m.running && id !in alive
    requires m.objs[id].success == 0 && m.maxRetry >= 2
    ensures Queued(UpdateTaskQueue(FinishWorker(m, id, true), alive), id)
  {
    var m1 := FinishWorker(m, id, true);
    var r := UpdateTaskQueue(m1, alive);
    var kept := Survivors(m1.running, alive);
    assert Retryable(m1.objs[id].success, m1.maxRetry);
    assert id in Requeued(m1.running, alive, m1.objs, m1.maxRetry);
    assert id in r.running[|kept|..] + r.waiting;
  }

  /** A task whose last allowed attempt raises is retired at the next tick. */
  lemma FinalFailureRetires(m: Manager, id: TaskId, alive: set<TaskId>)
    requires Valid(m) && Exclusive(m) && id in m.running && id !in alive
    requires m.objs[id].success == 1 - m.maxRetry
    ensures !Queued(UpdateTaskQueue(FinishWorker(m, id, true), alive), id)
  {
    FinishedTaskLeaves(FinishWorker(m, id, true), id, alive);
  }

  /** A task whose worker returns normally is retired at the next tick, and counted as a success. */
  lemma SuccessRetires(m: Manager, id: TaskId, alive: set<TaskId>)
    requires Valid(m) && Exclusive(m) && id in m.running && id !in alive
    ensures var r := UpdateTaskQueue(FinishWorker(m, id, false), alive);
      !Queued(r, id) && r.objs[id].success == 1
  {
    var m1 := FinishWorker(m, id, false);
    FinishedTaskLeaves(m1, id, alive);
    var r := UpdateTaskQueue(m1, alive);
    assert Resaved(m1.objs[id], r.objs[id]);
  }

  /** No task is reported both among the successes and among the failures. */
  lemma SuccessAndFailureDisjoint(m: Manager, id: TaskId)
    requires Valid(m)
    ensures !(id in GetSuccessTasks(m) && id in GetFailedTasks(m))
  {
  }

  /**
   * Starting the same download twice: the first request, for a url neither
   * registered nor stored, succeeds; the second raises and changes nothing.
   */
  lemma StartTwiceRaises(m: Manager, info: Options, alive: set<TaskId>)
    requires Valid(m) && info.url.Some? && info.url.value != ""
    requires info.url.value !in m.registry && info.url.value !in m.db
    ensures StartDownload(m, info, alive).fault.None?
    ensures var m1 := StartDownload(m, info, alive).m;
      StartDownload(m1, info, alive) == Step(m1, Some(DuplicateTask(info.url.value)))
  {
    var url := info.url.value;
    assert url in Create(m, url, info, alive).registry;
  }

  /** A manager with one task, for origin "u", that is running with a live worker. */
  function OneRunning(): (m: Manager)
    ensures Valid(m) && Exclusive(m) && m.running == [0] && m.waiting == []
  {
    var t := NewTask(DefaultOptions(Some("u")));
    Manager(map[0 := t], 1, map["u" := 0], ["u"], [0], [], 5, 3, map[])
  }

  /**
   * `queue_task` only looks in the waiting queue, so queueing a task that is
   * running with a live worker starts it a second time: the running list then
   * holds the same task twice.
   */
  lemma QueueRunningRunsTwice()
    ensures QueueOrigin(OneRunning(), "u", {0}).running == [0, 0]
    ensures !Exclusive(QueueOrigin(OneRunning(), "u", {0}))
  {
    var m := OneRunning();
    var m1 := ResetTask(m, 0);
    assert QueueOrigin(m, "u", {0}) == QueueTask(m, 0, {0});
    assert QueueTask(m, 0, {0}) == AppendAndTick(m1, 0, {0});
    assert m1.waiting + [0] == [0];
    TickRunsTwice(m1.(waiting := [0]));
    TwiceNotExclusive(UpdateTaskQueue(m1.(waiting := [0]), {0}));
  }

  /** A tick over a task both running with a live worker and waiting runs it twice. */
  lemma TickRunsTwice(m: Manager)
    requires Valid(m) && m.running == [0] && m.waiting == [0] && m.maxTask == 5
    ensures UpdateTaskQueue(m, {0}).running == [0, 0] && UpdateTaskQueue(m, {0}).waiting == []
  {
    var r := UpdateTaskQueue(m, {0});
    assert Survivors(m.running, {0}) == [0];
    assert Requeued(m.running, {0}, m.objs, m.maxRetry) == [];
    RunsTwice(r.running, r.waiting);
  }

  /** Queues that keep the one survivor in front, then hold the waiting task, with no slot short, are `[0, 0]` and `[]`. */
  lemma RunsTwice(running: seq<TaskId>, waiting: seq<TaskId>)
    requires 1 <= |running| && running[..1] == [0] && running[1..] + waiting == [0]
    requires |running| >= 5 || waiting == []
    ensures running == [0, 0] && waiting == []
  {
    assert |running[1..] + waiting| == 1;
    assert waiting == [];
    assert running[1..] == [0];
    assert running == running[..1] + running[1..];
  }

  /** A task listed twice breaks exclusivity. */
  lemma TwiceNotExclusive(m: Manager)
    requires m.running == [0, 0] && m.waiting == []
    ensures !Exclusive(m)
  {
    assert m.running + m.waiting == [0, 0];
    assert multiset([0, 0])[0] == 2;
  }
}
