/**
 * The lazily-deleting priority queue of `heapq`'s implementation notes.
 * Entries are `(−priority, insertion count, task)`; the entry map points each
 * live task at its entry, and removal turns an entry into a tombstone that
 * `pop` discards when it reaches it. The heap's array layout is abstracted:
 * the heap is a sequence, `heappush` adds an entry and `heappop` takes out the
 * least entry in the order of (negated priority, count).
 */
module PriorityQueue {
  import opened Results

  datatype Slot<T> = Live(task: T) | Removed

  datatype Entry<T> = Entry(key: int, count: nat, item: Slot<T>)

  datatype Queue<T> = Queue(heap: seq<Entry<T>>, counter: nat, finder: map<T, Entry<T>>)

  datatype QueueError =
    | ModuleNotFound   // `import itertool` names no module
    | AttributeError   // `self.remove_task` names no method
    | KeyError         // `remove` of an absent task

  /** Heap order: smaller key (higher priority) first, then smaller count (earlier push). Tasks are never compared, because counts differ. */
  predicate Precedes<T>(a: Entry<T>, b: Entry<T>) {
    a.key < b.key || (a.key == b.key && a.count <= b.count)
  }

  /** No two heap entries share a count. */
  ghost predicate UniqueCounts<T>(heap: seq<Entry<T>>) {
    forall i, j :: 0 <= i < j < |heap| ==> heap[i].count != heap[j].count
  }

  /** Every count in the heap was handed out before `counter`. */
  ghost predicate CountsBelow<T>(heap: seq<Entry<T>>, counter: nat) {
    forall i :: 0 <= i < |heap| ==> heap[i].count < counter
  }

  /** Every task of the entry map points at a live heap entry for itself. */
  ghost predicate Tracked<T>(heap: seq<Entry<T>>, finder: map<T, Entry<T>>) {
    forall t :: t in finder ==> finder[t] in heap && finder[t].item == Live(t)
  }

  /** Every live heap entry is the one the entry map holds for its task. */
  ghost predicate Indexed<T>(heap: seq<Entry<T>>, finder: map<T, Entry<T>>) {
    forall i :: 0 <= i < |heap| && heap[i].item.Live? ==>
      heap[i].item.task in finder && finder[heap[i].item.task] == heap[i]
  }

  /** Counts are unique and below the counter; the entry map and the live heap entries agree. */
  ghost predicate Valid<T>(q: Queue<T>) {
    && UniqueCounts(q.heap)
    && CountsBelow(q.heap, q.counter)
    && Tracked(q.heap, q.finder)
    && Indexed(q.heap, q.finder)
  }

  /** The heap with entry `m` taken out. */
  function Without<T>(heap: seq<Entry<T>>, m: nat): (r: seq<Entry<T>>)
    requires m < |heap|
    ensures |r| == |heap| - 1
    ensures forall i :: 0 <= i < m ==> r[i] == heap[i]
    ensures forall i :: m <= i < |r| ==> r[i] == heap[i + 1]
  {
    heap[..m] + heap[m + 1..]
  }

  /** Taking one entry out of the heap, and its task out of the map if the entry was live, keeps the queue valid. */
  lemma DropEntryValid<T>(q: Queue<T>, m: nat)
    requires Valid(q) && m < |q.heap|
    ensures var e := q.heap[m];
      Valid(Queue(Without(q.heap, m), q.counter, if e.item.Live? then q.finder - {e.item.task} else q.finder))
  {
    var e := q.heap[m];
    var heap' := Without(q.heap, m);
    var finder' := if e.item.Live? then q.finder - {e.item.task} else q.finder;
    forall i, j | 0 <= i < j < |heap'|
      ensures heap'[i].count != heap'[j].count
    {
      var i' := if i < m then i else i + 1;
      var j' := if j < m then j else j + 1;
      assert heap'[i] == q.heap[i'] && heap'[j] == q.heap[j'];
    }
    forall u | u in finder'
      ensures finder'[u] in heap'
    {
      var i :| 0 <= i < |q.heap| && q.heap[i] == q.finder[u];
      assert i != m;
      if i < m { assert heap'[i] == q.heap[i]; } else { assert heap'[i - 1] == q.heap[i]; }
    }
    forall i | 0 <= i < |heap'| && heap'[i].item.Live?
      ensures heap'[i].item.task in finder' && finder'[heap'[i].item.task] == heap'[i]
    {
      var i' := if i < m then i else i + 1;
      assert heap'[i] == q.heap[i'];
    }
  }

  /** Adding a fresh live entry for a task the map does not hold keeps the queue valid. */
  lemma AppendFreshValid<T>(q: Queue<T>, t: T, key: int)
    requires Valid(q) && t !in q.finder
    ensures var e := Entry(key, q.counter, Live(t));
      Valid(Queue(q.heap + [e], q.counter + 1, q.finder[t := e]))
  {
    var e := Entry(key, q.counter, Live(t));
    var heap' := q.heap + [e];
    assert forall i :: 0 <= i < |q.heap| ==> heap'[i] == q.heap[i];
    forall u | u in q.finder
      ensures q.finder[u] in heap'
    {
      var i :| 0 <= i < |q.heap| && q.heap[i] == q.finder[u];
      assert heap'[i] == q.heap[i];
    }
  }

  /** The queue `__init__` means to build: no entries, counter at zero. */
  function Empty<T>(): (q: Queue<T>)
    ensures Valid(q) && q.finder == map[]
  {
    Queue([], 0, map[])
  }

  /** `__init__` as written: it imports `itertool`, which does not exist, so it always raises. */
  function NewAsWritten<T>(): (r: Result<Queue<T>, QueueError>)
    ensures r.Err? && r.error == ModuleNotFound
  {
    Err(ModuleNotFound)
  }

  /** `len(q)`: the number of live tasks. */
  function Len<T>(q: Queue<T>): nat {
    |q.finder|
  }

  /** `task in q`: whether the task has a live entry. */
  predicate Contains<T>(q: Queue<T>, t: T) {
    t in q.finder
  }

  /** `all()`: the live tasks. */
  function All<T>(q: Queue<T>): set<T> {
    q.finder.Keys
  }

  /** `in` and `all()` report exactly the tasks with a live (untombstoned) heap entry, and `len` counts them. */
  lemma ContainsIffLiveEntry<T>(q: Queue<T>, t: T)
    requires Valid(q)
    ensures Contains(q, t) <==> exists i :: 0 <= i < |q.heap| && q.heap[i].item == Live(t)
    ensures All(q) == set i | 0 <= i < |q.heap| && q.heap[i].item.Live? :: q.heap[i].item.task
    ensures Len(q) == |All(q)|
  {
    if Contains(q, t) {
      var i :| 0 <= i < |q.heap| && q.heap[i] == q.finder[t];
    }
  }

  /** `remove`: tombstones the task's entry and forgets it; an absent task raises `KeyError`. */
  function Remove<T>(q: Queue<T>, t: T): (r: Result<Queue<T>, QueueError>)
    requires Valid(q)
    ensures r.Err? <==> t !in q.finder
    ensures r.Err? ==> r.error == KeyError
    ensures r.Ok? ==> Valid(r.value) && r.value.finder == q.finder - {t} && r.value.counter == q.counter
    ensures r.Ok? ==> |r.value.heap| == |q.heap|
  {
    if t !in q.finder then Err(KeyError)
    else
      var heap' := Tombstone(q.heap, q.finder[t].count);
      TombstoneValid(q, t);
      Ok(Queue(heap', q.counter, q.finder - {t}))
  }

  /** The heap with the entry of count `c` marked removed. */
  function Tombstone<T>(heap: seq<Entry<T>>, c: nat): (r: seq<Entry<T>>)
    ensures |r| == |heap|
    ensures forall i :: 0 <= i < |heap| ==>
      r[i] == if heap[i].count == c then heap[i].(item := Removed) else heap[i]
  {
    seq(|heap|, i requires 0 <= i < |heap| =>
      if heap[i].count == c then heap[i].(item := Removed) else heap[i])
  }

  /** Tombstoning a live task's entry and dropping it from the map keeps the queue valid. */
  lemma TombstoneValid<T>(q: Queue<T>, t: T)
    requires Valid(q) && t in q.finder
    ensures Valid(Queue(Tombstone(q.heap, q.finder[t].count), q.counter, q.finder - {t}))
  {
    var c := q.finder[t].count;
    var heap' := Tombstone(q.heap, c);
    var j :| 0 <= j < |q.heap| && q.heap[j] == q.finder[t];
    forall u | u in q.finder - {t}
      ensures q.finder[u] in heap'
    {
      var i :| 0 <= i < |q.heap| && q.heap[i] == q.finder[u];
      assert i != j;
      assert heap'[i] == q.heap[i];
    }
    forall i | 0 <= i < |heap'| && heap'[i].item.Live?
      ensures heap'[i].item.task in q.finder - {t} && q.finder[heap'[i].item.task] == heap'[i]
    {
      assert heap'[i] == q.heap[i];
      assert i != j;
    }
  }

  /** `push` as meant: a task already present is first removed, then entered afresh with the next count. */
  function Push<T>(q: Queue<T>, t: T, priority: int): (r: Queue<T>)
    requires Valid(q)
    ensures Valid(r)
    ensures r.finder == q.finder[t := Entry(-priority, q.counter, Live(t))]
    ensures r.counter == q.counter + 1
  {
    if t in q.finder then
      var q1 := Remove(q, t).value;
      ForgetThenSet(q.finder, t, Entry(-priority, q.counter, Live(t)));
      Enter(q1, t, -priority)
    else Enter(q, t, -priority)
  }

  /** A task not in the queue is entered with the next count. */
  function Enter<T>(q: Queue<T>, t: T, key: int): (r: Queue<T>)
    requires Valid(q) && t !in q.finder
    ensures Valid(r)
    ensures r.finder == q.finder[t := Entry(key, q.counter, Live(t))]
    ensures r.counter == q.counter + 1
  {
    AppendFreshValid(q, t, key);
    var e := Entry(key, q.counter, Live(t));
    Queue(q.heap + [e], q.counter + 1, q.finder[t := e])
  }

  /** Setting a key after dropping it is the same as setting it directly. */
  lemma ForgetThenSet<K, V>(m: map<K, V>, k: K, v: V)
    ensures (m - {k})[k := v] == m[k := v]
  {
  }

  /** `push` as written: re-pushing a present task calls the missing `remove_task` and raises. */
  function PushAsWritten<T>(q: Queue<T>, t: T, priority: int): (r: Result<Queue<T>, QueueError>)
    requires Valid(q)
    ensures r.Err? <==> t in q.finder
    ensures r.Ok? ==> r.value == Push(q, t, priority)
  {
    if t in q.finder then Err(AttributeError) else Ok(Push(q, t, priority))
  }

  /** The index of the least entry of a non-empty heap. */
  function MinIndex<T>(heap: seq<Entry<T>>): (m: nat)
    requires |heap| > 0
    ensures m < |heap|
    ensures forall j :: 0 <= j < |heap| ==> Precedes(heap[m], heap[j])
    decreases |heap|
  {
    if |heap| == 1 then 0
    else
      var m' := MinIndex(heap[..|heap| - 1]);
      if Precedes(heap[m'], heap[|heap| - 1]) then m' else |heap| - 1
  }

  /** The outcome of `pop`: the task taken and the queue left, or `KeyError` with the drained queue. */
  datatype Popped<T> = Got(task: T, rest: Queue<T>) | Exhausted(drained: Queue<T>)

  /**
   * `pop`: takes least heap entries, discarding tombstones, until a live one
   * comes out; that task leaves the queue. With no live task, `KeyError`.
   */
  function Pop<T>(q: Queue<T>): (r: Popped<T>)
    requires Valid(q)
    ensures r.Exhausted? <==> q.finder == map[]
    ensures r.Exhausted? ==> r.drained == Queue([], q.counter, map[])
    ensures r.Got? ==> r.task in q.finder && Valid(r.rest)
    ensures r.Got? ==> r.rest.finder == q.finder - {r.task} && r.rest.counter == q.counter
    ensures r.Got? ==> forall u :: u in q.finder ==> Precedes(q.finder[r.task], q.finder[u])
    decreases |q.heap|
  {
    if |q.heap| == 0 then
      Exhausted(q)
    else
      var m := MinIndex(q.heap);
      var e := q.heap[m];
      DropEntryValid(q, m);
      match e.item
      case Removed =>
        Pop(Queue(Without(q.heap, m), q.counter, q.finder))
      case Live(t) =>
        assert forall u :: u in q.finder ==> Precedes(q.finder[t], q.finder[u]) by {
          forall u | u in q.finder
            ensures Precedes(q.finder[t], q.finder[u])
          {
            var i :| 0 <= i < |q.heap| && q.heap[i] == q.finder[u];
          }
        }
        Got(t, Queue(Without(q.heap, m), q.counter, q.finder - {t}))
  }

  /** A task that is not live in the queue, such as one just removed, is never returned by `pop`. */
  lemma PopSkipsRemoved<T>(q: Queue<T>, t: T)
    requires Valid(q) && t in q.finder
    ensures var r := Pop(Remove(q, t).value); r.Got? ==> r.task != t
  {
  }

  /** Two tasks pushed one after the other with equal priority: the later one is not popped first. */
  lemma EqualPriorityFifo<T>(q: Queue<T>, a: T, b: T, priority: int)
    requires Valid(q) && a != b
    ensures var r := Pop(Push(Push(q, a, priority), b, priority)); r.Got? && r.task != b
  {
    var q2 := Push(Push(q, a, priority), b, priority);
    assert a in q2.finder;
    var r := Pop(q2);
    assert Precedes(q2.finder[r.task], q2.finder[a]);
  }

  /** Higher priority is popped first, whenever pushed. */
  lemma HigherPriorityFirst<T>(q: Queue<T>, a: T, pa: int, b: T, pb: int)
    requires Valid(q) && a != b && pa > pb
    ensures var r := Pop(Push(Push(q, b, pb), a, pa)); r.Got? && r.task != b
    ensures var r := Pop(Push(Push(q, a, pa), b, pb)); r.Got? && r.task != b
  {
    var q1 := Push(Push(q, b, pb), a, pa);
    assert a in q1.finder;
    var r1 := Pop(q1);
    assert Precedes(q1.finder[r1.task], q1.finder[a]);
    var q2 := Push(Push(q, a, pa), b, pb);
    assert a in q2.finder;
    var r2 := Pop(q2);
    assert Precedes(q2.finder[r2.task], q2.finder[a]);
  }

  /** Re-pushing a task keeps one live entry for it, with the latest priority. */
  lemma RepushKeepsOneEntry<T>(q: Queue<T>, t: T, p1: int, p2: int)
    requires Valid(q)
    ensures var r := Push(Push(q, t, p1), t, p2);
      && r.finder.Keys == q.finder.Keys + {t}
      && r.finder[t].key == -p2
      && Len(r) == Len(Push(q, t, p1))
  {
  }

  /** When one live entry strictly precedes all others, `pop` returns its task. */
  lemma PopTakesLeast<T>(q: Queue<T>, t: T)
    requires Valid(q) && t in q.finder
    requires forall u :: u in q.finder && u != t ==> !Precedes(q.finder[u], q.finder[t])
    ensures Pop(q).Got? && Pop(q).task == t
  {
    var r := Pop(q);
    assert Precedes(q.finder[r.task], q.finder[t]);
  }

  /** Pushing A (priority 5), B (1) and C (5) into an empty queue pops A, then C, then B, then raises. */
  lemma PopOrderExample<T>(a: T, b: T, c: T)
    requires a != b && b != c && a != c
    ensures var q := Push(Push(Push(Empty(), a, 5), b, 1), c, 5);
      && Pop(q).Got? && Pop(q).task == a
      && Pop(Pop(q).rest).Got? && Pop(Pop(q).rest).task == c
      && Pop(Pop(Pop(q).rest).rest).Got? && Pop(Pop(Pop(q).rest).rest).task == b
      && Pop(Pop(Pop(Pop(q).rest).rest).rest).Exhausted?
  {
    var q := Push(Push(Push(Empty(), a, 5), b, 1), c, 5);
    ExampleEntries(a, b, c);
    PopTakesLeast(q, a);
    var r1 := Pop(q).rest;
    PopStep(q, a, r1);
    DropFirstOfThree(a, Entry(-5, 0, Live(a)), b, Entry(-1, 1, Live(b)), c, Entry(-5, 2, Live(c)));
    PopRemainingExample(r1, b, c);
  }

  /** Dropping the first of three distinct keys from a map display leaves the other two. */
  lemma DropFirstOfThree<K, V>(a: K, va: V, b: K, vb: V, c: K, vc: V)
    requires a != b && a != c
    ensures map[a := va, b := vb, c := vc] - {a} == map[b := vb, c := vc]
  {
  }

  /** With B (priority 1) pushed before C (5) left, C pops first, then B, then the queue is exhausted. */
  lemma PopRemainingExample<T>(q: Queue<T>, b: T, c: T)
    requires Valid(q) && b != c
    requires q.finder == map[b := Entry(-1, 1, Live(b)), c := Entry(-5, 2, Live(c))]
    ensures Pop(q).Got? && Pop(q).task == c
    ensures Pop(Pop(q).rest).Got? && Pop(Pop(q).rest).task == b
    ensures Pop(Pop(Pop(q).rest).rest).Exhausted?
  {
    PopTakesLeast(q, c);
    var r1 := Pop(q).rest;
    PopStep(q, c, r1);
    PopTakesLeast(r1, b);
    var r2 := Pop(r1).rest;
    PopStep(r1, b, r2);
  }

  /** The entry map after pushing A (5), B (1), C (5) into an empty queue. */
  lemma ExampleEntries<T>(a: T, b: T, c: T)
    requires a != b && b != c && a != c
    ensures Push(Push(Push(Empty(), a, 5), b, 1), c, 5).finder
         == map[a := Entry(-5, 0, Live(a)), b := Entry(-1, 1, Live(b)), c := Entry(-5, 2, Live(c))]
  {
    var q1: Queue<T> := Push(Empty(), a, 5);
    var q2 := Push(q1, b, 1);
  }

  /** Popping `t` leaves the entry map without `t`. */
  lemma PopStep<T>(q: Queue<T>, t: T, rest: Queue<T>)
    requires Valid(q) && Pop(q).Got? && Pop(q).task == t && rest == Pop(q).rest
    ensures Valid(rest) && rest.finder == q.finder - {t}
  {
  }

  /** Re-pushing a present task fails as written, while the intended push succeeds. */
  lemma RepushFailsAsWritten<T>(t: T)
    ensures PushAsWritten(Push(Empty(), t, 1), t, 2).Err?
    ensures Contains(Push(Push(Empty(), t, 1), t, 2), t)
  {
  }
}
