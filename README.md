# Task store model

A Dafny model of the in-memory task store of a small personal to-do application:
the `TaskManager` class of core/task_manager.py and the `Task` dataclass of
core/task.py.

- `Tasks` (task.dfy) models `Task` as a class with five mutable fields. A
  `TaskValue` datatype is a snapshot of those fields. `mark_done` and
  `mark_undone` assign `completed` in place.
- `Text` (text.dfy) models `str.strip()` over Python's `str.isspace` set.
- `StoreSpec` (store_spec.dfy) states on values what every mutating operation does.
  A store is the list of task records plus the next-id counter. Errors are a
  `Result`: `EmptyTitle` and `PriorityOutOfRange` are the two `ValueError`s,
  and `NotFound(id)` is the `KeyError`. The module also defines runs of
  operations, to state that ids are never handed out twice.
- `Views` (views.dfy) holds the three list-comprehension filters and
  `sorted(..., key=sort_key)`. As in Python, the sort computes each task's key
  once, sorts the (task, key) pairs stably, and returns the tasks.
- `Manager` (manager.dfy) holds the `TaskManager` class:
  - a `seq<Task>` of references and the counter;
  - its methods are proved to follow `StoreSpec` through a ghost `Model()`;
  - it keeps the class invariant `Valid()`: titles are stripped and non-empty,
    priorities are in [1, 5], and ids are distinct, at least 1 and below the
    counter.

`complete` and `uncomplete` change a `Task` object through the reference that
`get_by_id` returns, and the model does the same. `delete` uses `list.remove`,
which removes the first element *equal* to the found task under the dataclass's
field-by-field `__eq__`. The model follows that too, and proves that with
distinct ids this element is the found one.

Dates are Python date ordinals: `date.min` is day 1 and `date.max` is day
3652059. The sort key replaces a missing due date with `date.max`, as the code
does. So a task that has no due date ties on the date with a task due on
`date.max`, and their priorities then decide. The docstring at
core/task_manager.py:60 says that tasks without a date go last; the model
follows the code, and the postcondition of `SortForDisplay` states the
exception.

## Model

| member | source | states |
|---|---|---|
| Tasks.Task.constructor | core/task.py:8-14 | a new task has exactly the given fields, with `due`, `priority` and `completed` defaulting to None, 3 and False, and no validation |
| Tasks.Task.MarkDone | core/task.py:16-17 | afterwards `completed` is true and id, title, due and priority are unchanged; on a task that is already done it changes nothing |
| Tasks.Task.MarkUndone | core/task.py:19-20 | afterwards `completed` is false and the other fields are unchanged; on a task that is not done it changes nothing |
| Text.TrimStart | core/task_manager.py:15 | the result is a suffix of the input, everything cut off is whitespace, and the result does not start with whitespace |
| Text.TrimEnd | core/task_manager.py:15 | the result is a prefix of the input, everything cut off is whitespace, and the result does not end with whitespace |
| Text.Trim | core/task_manager.py:15 | the stripped string is no longer than the input and, unless empty, neither starts nor ends with whitespace |
| Text.TrimIsSlice | core/task_manager.py:15 | the stripped title is a contiguous slice of the input with only whitespace removed on either side |
| Text.TrimEmptyIffBlank | core/task_manager.py:15-17 | the stripped title is empty exactly when the input consists of whitespace only, so `if not title` rejects exactly the blank titles |
| Text.TrimKeepsTrimmed | core/task_manager.py:15 | a string with non-space ends is left unchanged by strip |
| Text.TrimIdempotent | core/task_manager.py:15 | stripping twice gives the same as stripping once |
| StoreSpec.Find | core/task_manager.py:29-33 | the lookup yields the first index whose task has the id, and yields nothing exactly when no task has the id |
| StoreSpec.FindAt | core/task_manager.py:29-33 | the first task carrying the id is the one the lookup reports |
| StoreSpec.FindOnly | core/task_manager.py:29-33 | in a store with distinct ids, any task carrying the id is the one the lookup reports |
| StoreSpec.AddTaskRejects | core/task_manager.py:15-19 | `add_task` fails with the empty-title error exactly for blank titles, with the priority error exactly for non-blank titles whose priority is outside [1, 5], and succeeds otherwise |
| StoreSpec.AddTaskWellFormed | core/task_manager.py:14-24 | a successful add keeps the invariant (stripped non-empty titles, priorities in range, distinct ids below the counter) |
| StoreSpec.AddTaskAppends | core/task_manager.py:21-24 | a successful add keeps the earlier tasks as they were and appends one task with id = old counter, the stripped title, the given due date and priority, and not completed; that id was free, a lookup finds the new task at the end, and the counter goes up by one |
| StoreSpec.LookupFailsIffMissing | core/task_manager.py:29-43 | complete, uncomplete and delete fail with `NotFound(id)` exactly when no task has the id |
| StoreSpec.SetCompletedChanges | core/task_manager.py:35-39 | on success the task with the id gets the requested flag; every other task, the length, the order and the counter are unchanged, and the task stays at its index |
| StoreSpec.SetCompletedWellFormed | core/task_manager.py:35-39 | complete and uncomplete keep the invariant |
| StoreSpec.SetCompletedIdempotent | core/task_manager.py:35-39 | repeating complete (or uncomplete) on the result changes nothing further |
| StoreSpec.DeleteKeepsOrder | core/task_manager.py:41-43 | a successful delete removes one task, leaves the rest as a subsequence in their order, and leaves the counter unchanged |
| StoreSpec.DeleteRemovesOnlyId | core/task_manager.py:41-43 | after a successful delete a record is present exactly when it was present before and does not carry the id, and a later lookup of the id fails |
| StoreSpec.DeleteWellFormed | core/task_manager.py:41-43 | delete keeps the invariant |
| StoreSpec.StepWellFormed | core/task_manager.py:14-43 | every store operation, successful or failed, keeps the invariant |
| StoreSpec.RunWellFormed | core/task_manager.py:14-43 | any sequence of operations from a well-formed store ends in a well-formed store |
| StoreSpec.StepCounter | core/task_manager.py:21-23 | only a successful add moves the counter, and by exactly one |
| StoreSpec.IssuedIncreasing | core/task_manager.py:21-23 | the ids a run hands out rise strictly and none is below the counter the run started from |
| StoreSpec.IdsNeverReused | core/task_manager.py:12-23 | no id below the current counter is ever handed out again, whatever operations follow |
| StoreSpec.DeletedIdNeverReissued | core/task_manager.py:21-23 | after a task is deleted, no later sequence of operations hands out its id again |
| StoreSpec.FirstIdsAreOneAndTwo | core/task_manager.py:12 | on a new store, two successful adds hand out ids 1 and 2 |
| Views.Where | core/task_manager.py:45-54 | a filter returns a subsequence of the stored tasks (same order) containing exactly the stored tasks that satisfy its condition |
| Views.WhereCount | core/task_manager.py:45-54 | a filter keeps every occurrence of a task it shows and no occurrence of a task it does not |
| Views.WhereCounts | core/task_manager.py:45-54 | each stored task occurs in the filtered list as often as in the stored list if it satisfies the condition, and not at all otherwise |
| Views.Insert | core/task_manager.py:67 | inserting adds exactly the one pair: the multiset of pairs grows by it and the length by one |
| Views.SortByKey | core/task_manager.py:67 | the sorted pairs are a permutation of the input pairs |
| Views.InsertOrdered | core/task_manager.py:63-67 | inserting into a list ordered by key keeps it ordered |
| Views.InsertStable | core/task_manager.py:67 | inserting is stable: the new pair comes before every pair with the same key, and the pairs of every other key keep their order |
| Views.SortByKeyOrdered | core/task_manager.py:63-67 | the result of the sort is ordered by (completed, due or date.max, priority) |
| Views.SortByKeyStable | core/task_manager.py:67 | the sort is stable: for every key, the pairs with that key are in the order they had |
| Views.UndecorateInsert | core/task_manager.py:67 | inserting a pair adds exactly its task to the multiset of tasks |
| Views.UndecorateSort | core/task_manager.py:67 | sorting the pairs permutes their tasks |
| Views.GroupUndecorated | core/task_manager.py:63-67 | when every pair carries its task's current key, the tasks with key k are the tasks of the pairs with key k, in the same order |
| Views.SortedFaithful | core/task_manager.py:63-67 | every pair of the sorted list carries its task's current key |
| Views.DisplayPermutes | core/task_manager.py:56-67 | the display order is a permutation of the stored tasks |
| Views.DisplaySorted | core/task_manager.py:56-67 | the display order is sorted by (completed, due or date.max, priority) |
| Views.DisplayStable | core/task_manager.py:56-67 | in the display order, tasks with the same key keep their stored order |
| Manager.FirstEqual | core/task_manager.py:43 | `list.remove` stops at the first task whose fields all equal those of the task removed |
| Manager.RemoveFirstAt | core/task_manager.py:43 | when position k holds the task and no earlier task equals it, `list.remove` removes exactly position k |
| Manager.AppendFollowsSpec | core/task_manager.py:21-24 | appending the new task object is the specified add, and the store stays well-formed |
| Manager.RemoveFound | core/task_manager.py:41-43 | `list.remove` of the task `get_by_id` found takes out exactly the position carrying the id that the lookup stopped at, and keeps every other task object in its order |
| Manager.RemoveFollowsSpec | core/task_manager.py:41-43 | removing the task that `get_by_id` found, by equality, is the specified delete, and the store stays well-formed |
| Manager.TaskManager.constructor | core/task_manager.py:10-12 | a new manager has no tasks, its counter at 1, and satisfies the invariant |
| Manager.TaskManager.AddTask | core/task_manager.py:14-24 | follows the specified add: on a blank title or bad priority it fails with that error and changes nothing; otherwise it appends a fresh task object and advances the counter; the invariant is kept |
| Manager.TaskManager.ListAll | core/task_manager.py:26-27 | returns the stored tasks in stored order, as a value the caller cannot use to change the store |
| Manager.TaskManager.GetById | core/task_manager.py:29-33 | the loop returns the first stored task with the id, or `NotFound(id)` when there is none |
| Manager.TaskManager.Complete | core/task_manager.py:35-36 | follows the specified complete: with the id present it sets that task's flag and nothing else changes; otherwise `NotFound(id)` and nothing changes |
| Manager.TaskManager.Uncomplete | core/task_manager.py:38-39 | follows the specified uncomplete, in the same way |
| Manager.TaskManager.Delete | core/task_manager.py:41-43 | follows the specified delete: with the id present it removes that one task object, and the remaining list holds the very same objects in the same order with the counter unchanged; otherwise it fails with `NotFound(id)` and the list of objects is unchanged |
| Manager.TaskManager.DueToday | core/task_manager.py:45-47 | exactly the incomplete stored tasks due on `today`, in stored order, each as often as it is stored |
| Manager.TaskManager.Upcoming | core/task_manager.py:49-51 | exactly the incomplete stored tasks with a due date after `today`, in stored order, each as often as it is stored |
| Manager.TaskManager.Completed | core/task_manager.py:53-54 | exactly the completed stored tasks, in stored order, each as often as it is stored |
| Manager.TaskManager.SortForDisplay | core/task_manager.py:56-67 | a permutation of the stored tasks, sorted by the key, with incomplete before completed, with a dateless task followed in its group only by dateless tasks or tasks due on `date.max`, and stable for equal keys |

## Left out

- Persistence: the constructor of core/task_manager.py:10-12 takes no file
  path and has no load or save. tests/test_task_manager.py:9 and app.py pass a
  path; that code is not part of this model.
- app.py: web routes, form parsing and redirects are outside the task store.
- `date.today()` is a clock read, so `DueToday` and `Upcoming` take `today` as a
  parameter.
- Manager.TaskManager.AddTask, Complete, Uncomplete, Delete: they require the
  class invariant `Valid()`. Python callers can assign the fields of a `Task`
  they got from `list_all` or `get_by_id` (say, a blank title or a duplicate
  id); the model assumes such objects are changed only through the manager.
- The sort is modelled as an insertion sort, not Timsort. Its proved
  properties (a permutation, sorted, stable) determine the result uniquely, so
  any stable sort gives the same list.
- Python integers are unbounded, like Dafny's, so ids and priorities have no
  wrap-around to model.
- Dates before `date.min` or after `date.max` cannot exist in Python, and the
  `Date` type excludes them.
