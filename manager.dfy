/** The `TaskManager` class of core/task_manager.py: an in-memory list of `Task`
    objects and the counter that hands out ids. */
module Manager {
  import opened Tasks
  import opened Text
  import opened Seqs
  import opened Views
  import Spec = StoreSpec

  /** The index `list.index`/`list.remove` stop at: the first element equal to t,
      where equality of `Task`s is the dataclass's field-by-field equality. */
  function FirstEqual(ts: seq<Task>, t: Task): (k: nat)
    reads ts, t
    requires t in ts
    ensures k < |ts| && ts[k].Value() == t.Value()
    ensures forall j :: 0 <= j < k ==> ts[j].Value() != t.Value()
  {
    if ts[0].Value() == t.Value() then 0 else 1 + FirstEqual(ts[1..], t)
  }

  /** `ts.remove(t)`: the list without its first element equal to t. */
  function RemoveFirst(ts: seq<Task>, t: Task): seq<Task>
    reads ts, t
    requires t in ts
  {
    var k := FirstEqual(ts, t);
    ts[..k] + ts[k + 1..]
  }

  /** After one task's flag was set through its reference, the stored records are
      the old ones with that flag set. */
  lemma FlagSet(before: seq<TaskValue>, after: seq<TaskValue>, k: nat, done: bool)
    requires k < |before| == |after|
    requires after[k] == before[k].(completed := done)
    requires forall i :: 0 <= i < |before| && i != k ==> after[i] == before[i]
    ensures after == before[k := before[k].(completed := done)]
  {
  }

  /** Appending the new task `add_task` built is the addition of the store
      specification, and keeps the store valid. */
  lemma AppendFollowsSpec(ts: seq<Task>, nextId: int, title: string, due: Option<Date>, priority: int, t: Task)
    requires Spec.WellFormed(Spec.Store(Values(ts), nextId))
    requires Trim(title) != [] && 1 <= priority <= 5
    requires t.Value() == TaskValue(nextId, Trim(title), due, priority, false)
    ensures Spec.AddTask(Spec.Store(Values(ts), nextId), title, due, priority) == Spec.Ok(Spec.Store(Values(ts + [t]), nextId + 1))
    ensures Spec.WellFormed(Spec.Store(Values(ts + [t]), nextId + 1))
  {
    assert Values(ts + [t]) == Values(ts) + [t.Value()];
    Spec.AddTaskWellFormed(Spec.Store(Values(ts), nextId), title, due, priority);
  }

  /** `list.remove(t)` on a list whose first task equal to t sits at k takes out
      exactly position k. */
  lemma RemoveFirstAt(ts: seq<Task>, t: Task, k: nat)
    requires k < |ts| && ts[k] == t
    requires forall j :: 0 <= j < k ==> ts[j].Value() != t.Value()
    ensures t in ts
    ensures RemoveFirst(ts, t) == ts[..k] + ts[k + 1..]
    ensures Values(RemoveFirst(ts, t)) == Values(ts)[..k] + Values(ts)[k + 1..]
  {
    assert FirstEqual(ts, t) == k;
    var r := ts[..k] + ts[k + 1..];
    assert forall i :: 0 <= i < |r| ==> r[i] == ts[if i < k then i else i + 1];
  }

  /** `list.remove` of the task `get_by_id` found takes out exactly the position
      the lookup stopped at, and keeps every other task object in its order. */
  lemma RemoveFound(ts: seq<Task>, id: int, t: Task)
    requires Spec.Find(Values(ts), id).Some? && t == ts[Spec.Find(Values(ts), id).value]
    ensures t in ts
    ensures var k := Spec.Find(Values(ts), id).value;
      && RemoveFirst(ts, t) == ts[..k] + ts[k + 1..]
      && Values(RemoveFirst(ts, t)) == Values(ts)[..k] + Values(ts)[k + 1..]
    ensures exists k :: 0 <= k < |ts| && ts[k].id == id && RemoveFirst(ts, t) == ts[..k] + ts[k + 1..]
  {
    var vs := Values(ts);
    var k := Spec.Find(vs, id).value;
    assert forall j :: 0 <= j < k ==> ts[j].Value() != t.Value() by {
      forall j | 0 <= j < k ensures ts[j].Value() != t.Value() {
        assert vs[j].id != id;
      }
    }
    RemoveFirstAt(ts, t, k);
    assert ts[k].id == id;
  }

  /** Removing the task `get_by_id` found, as `delete` does with `list.remove`,
      is the deletion of the store specification, and keeps the store valid. */
  lemma RemoveFollowsSpec(ts: seq<Task>, nextId: int, id: int, t: Task)
    requires Spec.WellFormed(Spec.Store(Values(ts), nextId))
    requires Spec.Find(Values(ts), id).Some? && t == ts[Spec.Find(Values(ts), id).value]
    ensures t in ts
    ensures Spec.HasId(Values(ts), id)
    ensures Spec.Step(Spec.Store(Values(ts), nextId), Spec.Remove(id)) == Spec.Store(Values(RemoveFirst(ts, t)), nextId)
    ensures Spec.WellFormed(Spec.Store(Values(RemoveFirst(ts, t)), nextId))
  {
    var vs := Values(ts);
    var k := Spec.Find(vs, id).value;
    RemoveFound(ts, id, t);
    var s := Spec.Store(vs, nextId);
    assert Spec.Delete(s, id) == Spec.Ok(Spec.Store(vs[..k] + vs[k + 1..], nextId));
    Spec.DeleteWellFormed(s, id);
  }

  class TaskManager {
    var tasks: seq<Task>
    var nextId: int

    /** The stored records and the counter, as values. */
    ghost function Model(): Spec.Store
      reads this, tasks
    {
      Spec.Store(Values(tasks), nextId)
    }

    ghost predicate Valid()
      reads this, tasks
    {
      Spec.WellFormed(Model())
    }

    /** `TaskManager()`: an empty list and the counter at 1. */
    constructor ()
      ensures Valid() && Model() == Spec.Initial
    {
      tasks := [];
      nextId := 1;
    }

    /** `add_task`: on a blank title or a priority outside [1, 5] it fails and
        changes nothing; otherwise it appends a new `Task` object with the counter's
        id and the stripped title, advances the counter and returns the task. */
    method AddTask(title: string, due: Option<Date> := None, priority: int := 3) returns (r: Spec.Result<Task>)
      requires Valid()
      modifies this
      ensures Valid()
      ensures Model() == Spec.Step(old(Model()), Spec.Add(title, due, priority))
      ensures r.Ok? <==> Spec.AddTask(old(Model()), title, due, priority).Ok?
      ensures r.Err? ==> r.error == Spec.AddTask(old(Model()), title, due, priority).error && tasks == old(tasks)
      ensures r.Ok? ==> fresh(r.value) && tasks == old(tasks) + [r.value]
    {
      ghost var m := Model();
      var trimmed := Trim(title);
      if trimmed == [] {
        assert Spec.AddTask(m, title, due, priority) == Spec.Err(Spec.EmptyTitle);
        assert Spec.Step(m, Spec.Add(title, due, priority)) == m;
        return Spec.Err(Spec.EmptyTitle);
      }
      if !(1 <= priority <= 5) {
        assert Spec.AddTask(m, title, due, priority) == Spec.Err(Spec.PriorityOutOfRange);
        assert Spec.Step(m, Spec.Add(title, due, priority)) == m;
        return Spec.Err(Spec.PriorityOutOfRange);
      }
      var task := new Task(nextId, trimmed, due, priority);
      assert Model() == m;
      AppendFollowsSpec(tasks, nextId, title, due, priority, task);
      tasks := tasks + [task];
      nextId := nextId + 1;
      r := Spec.Ok(task);
      assert Spec.Step(m, Spec.Add(title, due, priority)) == Model();
    }

    /** `list_all`: the stored tasks in stored order. A Dafny sequence is a value,
        so, like the copy the source returns, it cannot be used to change the store. */
    function ListAll(): (r: seq<Task>)
      reads this
      ensures r == tasks
    {
      tasks
    }

    /** `get_by_id`: the first stored task with the id, or `KeyError`. */
    method GetById(id: int) returns (r: Spec.Result<Task>)
      ensures Spec.Find(Values(tasks), id).None? ==> r == Spec.Err(Spec.NotFound(id))
      ensures Spec.Find(Values(tasks), id).Some? ==> r == Spec.Ok(tasks[Spec.Find(Values(tasks), id).value])
    {
      var i := 0;
      while i < |tasks|
        invariant 0 <= i <= |tasks|
        invariant forall j :: 0 <= j < i ==> tasks[j].id != id
      {
        if tasks[i].id == id {
          Spec.FindAt(Values(tasks), id, i);
          return Spec.Ok(tasks[i]);
        }
        i := i + 1;
      }
      r := Spec.Err(Spec.NotFound(id));
    }

    /** `complete`: marks the task with the id done, or fails with `KeyError` and
        changes nothing. */
    method Complete(id: int) returns (r: Spec.Result<()>)
      requires Valid()
      modifies tasks
      ensures Valid()
      ensures Model() == Spec.Step(old(Model()), Spec.Complete(id))
      ensures r.Ok? <==> Spec.HasId(old(Model()).tasks, id)
      ensures r.Err? ==> r.error == Spec.NotFound(id)
    {
      var found := GetById(id);
      if found.Err? {
        return Spec.Err(found.error);
      }
      ghost var k := Spec.Find(Values(tasks), id).value;
      ghost var before := Values(tasks);
      assert forall i :: 0 <= i < |tasks| && i != k ==> tasks[i] != tasks[k] by {
        assert forall i :: 0 <= i < |tasks| && i != k ==> before[i].id != before[k].id;
      }
      found.value.MarkDone();
      r := Spec.Ok(());
      FlagSet(before, Values(tasks), k, true);
      Spec.SetCompletedWellFormed(old(Model()), id, true);
    }

    /** `uncomplete`: marks the task with the id not done, or fails with `KeyError`
        and changes nothing. */
    method Uncomplete(id: int) returns (r: Spec.Result<()>)
      requires Valid()
      modifies tasks
      ensures Valid()
      ensures Model() == Spec.Step(old(Model()), Spec.Uncomplete(id))
      ensures r.Ok? <==> Spec.HasId(old(Model()).tasks, id)
      ensures r.Err? ==> r.error == Spec.NotFound(id)
    {
      var found := GetById(id);
      if found.Err? {
        return Spec.Err(found.error);
      }
      ghost var k := Spec.Find(Values(tasks), id).value;
      ghost var before := Values(tasks);
      assert forall i :: 0 <= i < |tasks| && i != k ==> tasks[i] != tasks[k] by {
        assert forall i :: 0 <= i < |tasks| && i != k ==> before[i].id != before[k].id;
      }
      found.value.MarkUndone();
      r := Spec.Ok(());
      FlagSet(before, Values(tasks), k, false);
      Spec.SetCompletedWellFormed(old(Model()), id, false);
    }

    /** `delete`: removes the task with the id from the list, or fails with
        `KeyError` and changes nothing. The counter is left alone. */
    method Delete(id: int) returns (r: Spec.Result<()>)
      requires Valid()
      modifies this
      ensures Valid()
      ensures Model() == Spec.Step(old(Model()), Spec.Remove(id))
      ensures r.Ok? <==> Spec.HasId(old(Model()).tasks, id)
      ensures r.Err? ==> r.error == Spec.NotFound(id) && tasks == old(tasks)
      ensures r.Ok? ==> exists k :: 0 <= k < |old(tasks)| && old(tasks)[k].id == id
                                    && tasks == old(tasks)[..k] + old(tasks)[k + 1..]
    {
      var found := GetById(id);
      if found.Err? {
        return Spec.Err(found.error);
      }
      RemoveFound(tasks, id, found.value);
      RemoveFollowsSpec(tasks, nextId, id, found.value);
      tasks := RemoveFirst(tasks, found.value);
      r := Spec.Ok(());
    }

    /** `due_today`: the tasks that are not completed and are due on `today`, in
        stored order. */
    function DueToday(today: Date): (r: seq<Task>)
      reads this, tasks
      ensures IsSubseq(r, tasks)
      ensures forall i :: 0 <= i < |r| ==> r[i] in tasks && r[i].due == Some(today) && !r[i].completed
      ensures forall i :: 0 <= i < |tasks| && tasks[i].due == Some(today) && !tasks[i].completed ==> tasks[i] in r
      ensures forall i :: 0 <= i < |tasks| ==>
                multiset(r)[tasks[i]] == if tasks[i].due == Some(today) && !tasks[i].completed then multiset(tasks)[tasks[i]] else 0
    {
      WhereCounts(tasks, DueOn(today));
      Where(tasks, DueOn(today))
    }

    /** `upcoming`: the tasks that are not completed and are due after `today`, in
        stored order. */
    function Upcoming(today: Date): (r: seq<Task>)
      reads this, tasks
      ensures IsSubseq(r, tasks)
      ensures forall i :: 0 <= i < |r| ==> r[i] in tasks && r[i].due.Some? && r[i].due.value > today && !r[i].completed
      ensures forall i :: 0 <= i < |tasks| && tasks[i].due.Some? && tasks[i].due.value > today && !tasks[i].completed
                ==> tasks[i] in r
      ensures forall i :: 0 <= i < |tasks| ==>
                multiset(r)[tasks[i]]
                == if tasks[i].due.Some? && tasks[i].due.value > today && !tasks[i].completed then multiset(tasks)[tasks[i]] else 0
    {
      WhereCounts(tasks, DueAfter(today));
      Where(tasks, DueAfter(today))
    }

    /** `completed`: the completed tasks, in stored order. */
    function Completed(): (r: seq<Task>)
      reads this, tasks
      ensures IsSubseq(r, tasks)
      ensures forall i :: 0 <= i < |r| ==> r[i] in tasks && r[i].completed
      ensures forall i :: 0 <= i < |tasks| && tasks[i].completed ==> tasks[i] in r
      ensures forall i :: 0 <= i < |tasks| ==>
                multiset(r)[tasks[i]] == if tasks[i].completed then multiset(tasks)[tasks[i]] else 0
    {
      WhereCounts(tasks, Done);
      Where(tasks, Done)
    }

    /** `sort_for_display`: all stored tasks, incomplete ones first, then by due date
        with a missing date counted as `date.max`, then by priority; tasks with the
        same key stay in stored order. */
    function SortForDisplay(): (r: seq<Task>)
      reads this, tasks
      ensures multiset(r) == multiset(tasks)
      ensures forall i :: 0 <= i < |r| ==> r[i] in tasks
      ensures Sorted(r)
      ensures forall i, j :: 0 <= i < j < |r| && r[i].completed ==> r[j].completed
      ensures forall i, j :: 0 <= i < j < |r| && r[i].completed == r[j].completed && r[i].due.None?
                ==> r[j].due.None? || r[j].due.value == MaxDay
      ensures forall k :: Group(r, k) == Group(tasks, k)
    {
      DisplayPermutes(tasks);
      DisplaySorted(tasks);
      DisplayStable(tasks);
      Display(tasks)
    }
  }
}
