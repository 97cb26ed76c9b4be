/** What the mutating operations of `TaskManager` (core/task_manager.py) do to the
    store, stated on values: the list of task records and the next-id counter.
    The class in manager.dfy is proved to follow these functions. */
module StoreSpec {
  import opened Tasks
  import opened Text
  import opened Seqs

  /** The two `ValueError`s of `add_task` and the `KeyError` of `get_by_id`. */
  datatype Error = EmptyTitle | PriorityOutOfRange | NotFound(id: int)

  datatype Result<+T> = Ok(value: T) | Err(error: Error)

  datatype Store = Store(tasks: seq<TaskValue>, nextId: int)

  /** `TaskManager()`: no tasks, and the first id handed out will be 1. */
  const Initial: Store := Store([], 1)

  /** A record `add_task` could have stored: the title is non-empty and stripped
      (no whitespace at either end), the priority is in [1, 5]. */
  predicate ValidTask(v: TaskValue)
  {
    v.title != [] && !IsSpace(v.title[0]) && !IsSpace(v.title[|v.title| - 1]) && 1 <= v.priority <= 5
  }

  /** The class invariant: every task was validated, ids are positive, distinct,
      and below the counter. */
  predicate WellFormed(s: Store)
  {
    && 1 <= s.nextId
    && (forall i :: 0 <= i < |s.tasks| ==> ValidTask(s.tasks[i]) && 1 <= s.tasks[i].id < s.nextId)
    && (forall i, j :: 0 <= i < j < |s.tasks| ==> s.tasks[i].id != s.tasks[j].id)
  }

  predicate HasId(vs: seq<TaskValue>, id: int)
  {
    exists i :: 0 <= i < |vs| && vs[i].id == id
  }

  /** The index `get_by_id`'s loop stops at: the first task with that id. */
  function Find(vs: seq<TaskValue>, id: int): (k: Option<nat>)
    ensures k.Some? ==> k.value < |vs| && vs[k.value].id == id
                        && forall j :: 0 <= j < k.value ==> vs[j].id != id
    ensures k.None? <==> !HasId(vs, id)
  {
    if vs == [] then None
    else if vs[0].id == id then Some(0)
    else match Find(vs[1..], id)
      case None => (assert forall j :: 1 <= j < |vs| ==> vs[j] == vs[1..][j - 1]; None)
      case Some(k) => Some(k + 1)
  }

  /** The first task carrying the id is the one Find reports. */
  lemma {:induction false} FindAt(vs: seq<TaskValue>, id: int, k: nat)
    requires k < |vs| && vs[k].id == id
    requires forall j :: 0 <= j < k ==> vs[j].id != id
    ensures Find(vs, id) == Some(k)
  {
    assert HasId(vs, id);
  }

  /** `add_task`: strip the title, reject a blank title and then a priority outside
      [1, 5]; otherwise append a new, not completed task carrying the counter's id
      and advance the counter. */
  function AddTask(s: Store, title: string, due: Option<Date>, priority: int): Result<Store>
  {
    var trimmed := Trim(title);
    if trimmed == [] then Err(EmptyTitle)
    else if !(1 <= priority <= 5) then Err(PriorityOutOfRange)
    else Ok(Store(s.tasks + [TaskValue(s.nextId, trimmed, due, priority, false)], s.nextId + 1))
  }

  /** `complete` (done = true) and `uncomplete` (done = false): look the id up and
      set the flag of that task. */
  function SetCompleted(s: Store, id: int, done: bool): Result<Store>
  {
    match Find(s.tasks, id)
    case None => Err(NotFound(id))
    case Some(k) => Ok(s.(tasks := s.tasks[k := s.tasks[k].(completed := done)]))
  }

  /** `delete`: look the id up and take that task out of the list. */
  function Delete(s: Store, id: int): Result<Store>
  {
    match Find(s.tasks, id)
    case None => Err(NotFound(id))
    case Some(k) => Ok(s.(tasks := s.tasks[..k] + s.tasks[k + 1..]))
  }

  /** The calls a client can make on the store, and their effect: an operation that
      raises leaves the store as it was. */
  datatype Op = Add(title: string, due: Option<Date>, priority: int) | Complete(id: int) | Uncomplete(id: int) | Remove(id: int)

  function Apply(s: Store, op: Op): Result<Store>
  {
    match op
    case Add(title, due, priority) => AddTask(s, title, due, priority)
    case Complete(id) => SetCompleted(s, id, true)
    case Uncomplete(id) => SetCompleted(s, id, false)
    case Remove(id) => Delete(s, id)
  }

  function Step(s: Store, op: Op): Store
  {
    match Apply(s, op)
    case Ok(s') => s'
    case Err(_) => s
  }

  function Run(s: Store, ops: seq<Op>): Store
    decreases |ops|
  {
    if ops == [] then s else Run(Step(s, ops[0]), ops[1..])
  }

  /** The ids that the successful `add_task` calls of a run hand out, in order. */
  function Issued(s: Store, ops: seq<Op>): seq<int>
    decreases |ops|
  {
    if ops == [] then []
    else
      var handedOut := if ops[0].Add? && Apply(s, ops[0]).Ok? then [s.nextId] else [];
      handedOut + Issued(Step(s, ops[0]), ops[1..])
  }

  // ---------------------------------------------------------------------------
  // add_task

  /** `add_task` raises exactly when the title is blank or the priority is outside
      [1, 5], and the blank title is reported first. */
  lemma {:induction false} AddTaskRejects(s: Store, title: string, due: Option<Date>, priority: int)
    ensures AddTask(s, title, due, priority) == Err(EmptyTitle) <==> IsBlank(title)
    ensures AddTask(s, title, due, priority) == Err(PriorityOutOfRange)
            <==> !IsBlank(title) && !(1 <= priority <= 5)
    ensures AddTask(s, title, due, priority).Ok? <==> !IsBlank(title) && 1 <= priority <= 5
  {
    TrimEmptyIffBlank(title);
  }

  /** A successful `add_task` keeps the invariant. */
  lemma {:induction false} AddTaskWellFormed(s: Store, title: string, due: Option<Date>, priority: int)
    requires WellFormed(s)
    requires AddTask(s, title, due, priority).Ok?
    ensures WellFormed(AddTask(s, title, due, priority).value)
  {
    var t := Trim(title);
    var v := TaskValue(s.nextId, t, due, priority, false);
    assert ValidTask(v) by {
      assert t != [] && 1 <= priority <= 5;
    }
    AppendWellFormed(s, v);
    assert AddTask(s, title, due, priority) == Ok(Store(s.tasks + [v], s.nextId + 1));
  }

  /** A successful `add_task` leaves the earlier tasks as they were and appends one
      task under the old counter, an id no earlier task carries; its title is the
      stripped title and it is not completed. The counter goes up by one. */
  lemma {:induction false} AddTaskAppends(s: Store, title: string, due: Option<Date>, priority: int)
    requires WellFormed(s)
    requires AddTask(s, title, due, priority).Ok?
    ensures var s' := AddTask(s, title, due, priority).value;
      && |s'.tasks| == |s.tasks| + 1 && s'.tasks[..|s.tasks|] == s.tasks
      && s'.tasks[|s.tasks|] == TaskValue(s.nextId, Trim(title), due, priority, false)
      && Find(s'.tasks, s.nextId) == Some(|s.tasks|)
      && s'.nextId == s.nextId + 1
    ensures !HasId(s.tasks, s.nextId)
  {
    var v := TaskValue(s.nextId, Trim(title), due, priority, false);
    var ts := s.tasks + [v];
    assert ts[..|s.tasks|] == s.tasks;
    assert forall j :: 0 <= j < |s.tasks| ==> ts[j].id != s.nextId;
    FindAt(ts, s.nextId, |s.tasks|);
  }

  lemma {:induction false} AppendWellFormed(s: Store, v: TaskValue)
    requires WellFormed(s) && ValidTask(v) && v.id == s.nextId
    ensures WellFormed(Store(s.tasks + [v], s.nextId + 1))
  {
    var ts := s.tasks + [v];
    assert forall i :: 0 <= i < |s.tasks| ==> ts[i] == s.tasks[i];
    assert forall i :: 0 <= i < |ts| ==> ts[i].id < s.nextId + 1;
  }

  // ---------------------------------------------------------------------------
  // complete / uncomplete

  /** `complete`, `uncomplete` and `delete` raise `KeyError` exactly when no task has
      the id. */
  lemma {:induction false} LookupFailsIffMissing(s: Store, id: int, done: bool)
    ensures SetCompleted(s, id, done) == Err(NotFound(id)) <==> !HasId(s.tasks, id)
    ensures Delete(s, id) == Err(NotFound(id)) <==> !HasId(s.tasks, id)
    ensures SetCompleted(s, id, done).Ok? <==> HasId(s.tasks, id)
    ensures Delete(s, id).Ok? <==> HasId(s.tasks, id)
  {
  }

  /** With distinct ids, the task Find reports is the only one with that id. */
  lemma {:induction false} FindOnly(s: Store, id: int, i: int)
    requires WellFormed(s)
    requires 0 <= i < |s.tasks| && s.tasks[i].id == id
    ensures Find(s.tasks, id) == Some(i)
  {
    assert HasId(s.tasks, id);
  }

  /** On success `complete`/`uncomplete` give the task with the id the requested
      flag; every other task, the order and the counter are unchanged, and the task
      is still found at the same place. */
  lemma {:induction false} SetCompletedChanges(s: Store, id: int, done: bool)
    requires WellFormed(s)
    requires SetCompleted(s, id, done).Ok?
    ensures var s' := SetCompleted(s, id, done).value;
      && s'.nextId == s.nextId
      && |s'.tasks| == |s.tasks|
      && (forall i :: 0 <= i < |s.tasks| && s.tasks[i].id != id ==> s'.tasks[i] == s.tasks[i])
      && (forall i :: 0 <= i < |s.tasks| && s.tasks[i].id == id ==> s'.tasks[i] == s.tasks[i].(completed := done))
      && Find(s'.tasks, id) == Find(s.tasks, id)
  {
    var k := Find(s.tasks, id).value;
    var s' := SetCompleted(s, id, done).value;
    forall i | 0 <= i < |s.tasks| && s.tasks[i].id == id
      ensures i == k
    {
      FindOnly(s, id, i);
    }
    FindAt(s'.tasks, id, k);
  }

  /** `complete`/`uncomplete` keep the invariant. */
  lemma {:induction false} SetCompletedWellFormed(s: Store, id: int, done: bool)
    requires WellFormed(s)
    requires SetCompleted(s, id, done).Ok?
    ensures WellFormed(SetCompleted(s, id, done).value)
  {
    var k := Find(s.tasks, id).value;
    var s' := SetCompleted(s, id, done).value;
    assert forall i :: 0 <= i < |s.tasks| ==> s'.tasks[i].id == s.tasks[i].id && ValidTask(s'.tasks[i]);
  }

  /** Repeating `complete` (or `uncomplete`) has no further effect. */
  lemma {:induction false} SetCompletedIdempotent(s: Store, id: int, done: bool)
    requires SetCompleted(s, id, done).Ok?
    ensures SetCompleted(SetCompleted(s, id, done).value, id, done) == SetCompleted(s, id, done)
  {
    var k := Find(s.tasks, id).value;
    var s' := SetCompleted(s, id, done).value;
    FindAt(s'.tasks, id, k);
    assert s'.tasks[k := s'.tasks[k].(completed := done)] == s'.tasks;
  }

  // ---------------------------------------------------------------------------
  // delete

  /** On success `delete` takes out one task, keeps the others in their order and
      leaves the counter unchanged. */
  lemma {:induction false} DeleteKeepsOrder(s: Store, id: int)
    requires Delete(s, id).Ok?
    ensures var s' := Delete(s, id).value;
      && s'.nextId == s.nextId
      && |s'.tasks| == |s.tasks| - 1
      && IsSubseq(s'.tasks, s.tasks)
  {
    DropOneIsSubseq(s.tasks, Find(s.tasks, id).value);
  }

  /** On success `delete` removes exactly the task with the id: every other task is
      still there, and a later lookup of the id fails. */
  lemma {:induction false} DeleteRemovesOnlyId(s: Store, id: int)
    requires WellFormed(s)
    requires Delete(s, id).Ok?
    ensures var s' := Delete(s, id).value;
      && (forall v :: v in s'.tasks <==> v in s.tasks && v.id != id)
      && !HasId(s'.tasks, id)
  {
    var k := Find(s.tasks, id).value;
    var s' := Delete(s, id).value;
    assert forall i :: 0 <= i < |s'.tasks| ==> s'.tasks[i] == s.tasks[if i < k then i else i + 1];
    forall i | 0 <= i < |s.tasks| && s.tasks[i].id == id
      ensures i == k
    {
      FindOnly(s, id, i);
    }
    forall v | v in s.tasks && v.id != id
      ensures v in s'.tasks
    {
      var i :| 0 <= i < |s.tasks| && s.tasks[i] == v;
      assert s'.tasks[if i < k then i else i - 1] == v;
    }
  }

  /** `delete` keeps the invariant. */
  lemma {:induction false} DeleteWellFormed(s: Store, id: int)
    requires WellFormed(s)
    requires Delete(s, id).Ok?
    ensures WellFormed(Delete(s, id).value)
  {
    var k := Find(s.tasks, id).value;
    var s' := Delete(s, id).value;
    assert forall i :: 0 <= i < |s'.tasks| ==> s'.tasks[i] == s.tasks[if i < k then i else i + 1];
  }

  // ---------------------------------------------------------------------------
  // Runs of operations

  lemma {:induction false} StepWellFormed(s: Store, op: Op)
    requires WellFormed(s)
    ensures WellFormed(Step(s, op))
  {
    match op
    case Add(title, due, priority) =>
      if AddTask(s, title, due, priority).Ok? {
        AddTaskWellFormed(s, title, due, priority);
      }
    case Complete(id) =>
      if SetCompleted(s, id, true).Ok? {
        SetCompletedWellFormed(s, id, true);
      }
    case Uncomplete(id) =>
      if SetCompleted(s, id, false).Ok? {
        SetCompletedWellFormed(s, id, false);
      }
    case Remove(id) =>
      if Delete(s, id).Ok? {
        DeleteWellFormed(s, id);
      }
  }

  /** Every store reachable from a well-formed one by any calls is well-formed. */
  lemma {:induction false} RunWellFormed(s: Store, ops: seq<Op>)
    requires WellFormed(s)
    ensures WellFormed(Run(s, ops))
    decreases |ops|
  {
    if ops != [] {
      StepWellFormed(s, ops[0]);
      RunWellFormed(Step(s, ops[0]), ops[1..]);
    }
  }

  /** Only a successful `add_task` moves the counter, by one. */
  lemma {:induction false} StepCounter(s: Store, op: Op)
    ensures Step(s, op).nextId == if op.Add? && Apply(s, op).Ok? then s.nextId + 1 else s.nextId
  {
  }

  predicate Increasing(ids: seq<int>)
  {
    forall i, j :: 0 <= i < j < |ids| ==> ids[i] < ids[j]
  }

  predicate AllAtLeast(ids: seq<int>, n: int)
  {
    forall i :: 0 <= i < |ids| ==> n <= ids[i]
  }

  /** Ids handed out by a run rise strictly and are never below the counter the
      run starts from. */
  lemma {:induction false} IssuedIncreasing(s: Store, ops: seq<Op>)
    ensures Increasing(Issued(s, ops)) && AllAtLeast(Issued(s, ops), s.nextId)
    decreases |ops|
  {
    if ops != [] {
      var s1 := Step(s, ops[0]);
      var head := if ops[0].Add? && Apply(s, ops[0]).Ok? then [s.nextId] else [];
      StepCounter(s, ops[0]);
      IssuedIncreasing(s1, ops[1..]);
      assert Issued(s, ops) == head + Issued(s1, ops[1..]);
      PrependBelow(s.nextId, head, Issued(s1, ops[1..]), s1.nextId);
    }
  }

  lemma {:induction false} PrependBelow(n: int, head: seq<int>, rest: seq<int>, m: int)
    requires head == [] || head == [n]
    requires if head == [] then n <= m else n < m
    requires Increasing(rest) && AllAtLeast(rest, m)
    ensures Increasing(head + rest) && AllAtLeast(head + rest, n)
  {
    var ids := head + rest;
    forall i | |head| <= i < |ids|
      ensures ids[i] == rest[i - |head|] && m <= ids[i]
    {
    }
  }

  /** An id that was ever handed out, whether its task is still stored or was
      deleted since, is never handed out again. */
  lemma {:induction false} IdsNeverReused(s: Store, ops: seq<Op>, id: int)
    requires id < s.nextId
    ensures id !in Issued(s, ops)
  {
    IssuedIncreasing(s, ops);
  }

  /** In particular the id of a deleted task stays unused. */
  lemma {:induction false} DeletedIdNeverReissued(s: Store, id: int, ops: seq<Op>)
    requires WellFormed(s)
    requires HasId(s.tasks, id)
    ensures id !in Issued(Step(s, Remove(id)), ops)
  {
    StepCounter(s, Remove(id));
    IdsNeverReused(Step(s, Remove(id)), ops, id);
  }

  /** A fresh store hands out 1 and then 2 for its first two accepted tasks. */
  lemma FirstIdsAreOneAndTwo(a: string, b: string, due: Option<Date>, p: int, q: int)
    requires !IsBlank(a) && !IsBlank(b) && 1 <= p <= 5 && 1 <= q <= 5
    ensures Issued(Initial, [Add(a, due, p), Add(b, due, q)]) == [1, 2]
  {
    var ops := [Add(a, due, p), Add(b, due, q)];
    TrimEmptyIffBlank(a);
    TrimEmptyIffBlank(b);
    var v := TaskValue(1, Trim(a), due, p, false);
    assert Initial.tasks + [v] == [v];
    var s1 := Store([v], 2);
    var s2 := Store(s1.tasks + [TaskValue(2, Trim(b), due, q, false)], 3);
    assert Apply(Initial, ops[0]) == Ok(s1);
    assert Apply(s1, ops[1]) == Ok(s2);
    assert Issued(s2, ops[1..][1..]) == [];
    assert Issued(s1, ops[1..]) == [2];
  }
}
