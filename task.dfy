/** The `Task` dataclass of core/task.py. */
module Tasks {

  datatype Option<+T> = None | Some(value: T)

  /** Calendar dates are Python `date` ordinals: `date.min` is day 1 and
      `date.max` (9999-12-31) is day 3652059. Comparing ordinals compares dates. */
  const MaxDay: int := 3652059
  type Date = d: int | 1 <= d <= 3652059 witness 1

  /** The five fields of a task at one moment; the dataclass's generated `__eq__`
      compares exactly these. */
  datatype TaskValue = TaskValue(id: int, title: string, due: Option<Date>, priority: int, completed: bool)

  /** One to-do item. Its fields are public and mutable as in the dataclass;
      only `completed` is changed by the code of the task store. */
  class Task {
    var id: int
    var title: string
    var due: Option<Date>
    var priority: int  // 1 is the highest priority, 5 the lowest
    var completed: bool

    function Value(): TaskValue
      reads this
    {
      TaskValue(id, title, due, priority, completed)
    }

    /** The generated `__init__`: `due`, `priority` and `completed` default to
        None, 3 and False, and nothing is validated. */
    constructor (id: int, title: string, due: Option<Date> := None, priority: int := 3, completed: bool := false)
      ensures Value() == TaskValue(id, title, due, priority, completed)
    {
      this.id := id;
      this.title := title;
      this.due := due;
      this.priority := priority;
      this.completed := completed;
    }

    /** Marks the task done; the other fields keep their values, and a task that
        is already done is left as it was. */
    method MarkDone()
      modifies this
      ensures Value() == old(Value()).(completed := true)
      ensures old(completed) ==> Value() == old(Value())
    {
      completed := true;
    }

    /** Marks the task not done; the other fields keep their values, and a task
        that is not done is left as it was. */
    method MarkUndone()
      modifies this
      ensures Value() == old(Value()).(completed := false)
      ensures !old(completed) ==> Value() == old(Value())
    {
      completed := false;
    }
  }

  /** The field values of a list of tasks, in list order. */
  function Values(ts: seq<Task>): (vs: seq<TaskValue>)
    reads ts
    ensures |vs| == |ts| && forall i :: 0 <= i < |ts| ==> vs[i] == ts[i].Value()
  {
    seq(|ts|, i reads ts requires 0 <= i < |ts| => ts[i].Value())
  }
}
