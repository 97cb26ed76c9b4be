/** The read-only views of core/task_manager.py: the three filtered lists and the
    display order. They return the stored `Task` objects themselves, as the list
    comprehensions and `sorted` of the source do. */
module Views {
  import opened Tasks
  import opened Seqs

  /** The condition of each list comprehension. */
  datatype View = DueOn(today: Date) | DueAfter(today: Date) | Done

  predicate Shows(view: View, v: TaskValue)
  {
    match view
    case DueOn(today) => v.due == Some(today) && !v.completed
    case DueAfter(today) => v.due.Some? && v.due.value > today && !v.completed
    case Done => v.completed
  }

  /** `[t for t in ts if <condition>]`: the tasks the view shows, in list order. */
  function Where(ts: seq<Task>, view: View): (r: seq<Task>)
    reads ts
    ensures IsSubseq(r, ts)
    ensures forall i :: 0 <= i < |r| ==> r[i] in ts && Shows(view, r[i].Value())
    ensures forall i :: 0 <= i < |ts| && Shows(view, ts[i].Value()) ==> ts[i] in r
  {
    if ts == [] then []
    else if Shows(view, ts[0].Value()) then [ts[0]] + Where(ts[1..], view)
    else Where(ts[1..], view)
  }

  /** A filter keeps every copy of a task it shows and none of a task it does not. */
  lemma {:induction false} WhereCount(ts: seq<Task>, view: View, x: Task)
    ensures multiset(Where(ts, view))[x] == if Shows(view, x.Value()) then multiset(ts)[x] else 0
    decreases |ts|
  {
    if ts != [] {
      WhereCount(ts[1..], view, x);
      assert ts == [ts[0]] + ts[1..];
    }
  }

  /** The multiplicity of each stored task in a filtered list. */
  lemma WhereCounts(ts: seq<Task>, view: View)
    ensures forall i :: 0 <= i < |ts| ==>
              multiset(Where(ts, view))[ts[i]] == if Shows(view, ts[i].Value()) then multiset(ts)[ts[i]] else 0
  {
    forall i | 0 <= i < |ts|
      ensures multiset(Where(ts, view))[ts[i]] == if Shows(view, ts[i].Value()) then multiset(ts)[ts[i]] else 0
    {
      WhereCount(ts, view, ts[i]);
    }
  }

  /** The key `sort_for_display` sorts by: (completed, due or date.max, priority),
      compared as Python compares tuples, with False before True. */
  datatype SortKey = SortKey(done: bool, day: int, priority: int)

  function KeyOf(v: TaskValue): SortKey
  {
    SortKey(v.completed, if v.due.Some? then v.due.value else MaxDay, v.priority)
  }

  predicate KeyLe(a: SortKey, b: SortKey)
  {
    if a.done != b.done then !a.done
    else if a.day != b.day then a.day < b.day
    else a.priority <= b.priority
  }

  /** The stored order of tasks is sorted by the key. */
  predicate Sorted(ts: seq<Task>)
    reads ts
  {
    forall i, j :: 0 <= i < j < |ts| ==> KeyLe(KeyOf(ts[i].Value()), KeyOf(ts[j].Value()))
  }

  /** The tasks of ts whose key is k, in list order. A sort is stable when it keeps
      every such group in the order it had. */
  function Group(ts: seq<Task>, k: SortKey): (r: seq<Task>)
    reads ts
    ensures IsSubseq(r, ts)
    ensures forall i :: 0 <= i < |r| ==> r[i] in ts && KeyOf(r[i].Value()) == k
  {
    if ts == [] then []
    else if KeyOf(ts[0].Value()) == k then [ts[0]] + Group(ts[1..], k)
    else Group(ts[1..], k)
  }

  // ---------------------------------------------------------------------------
  // `sorted(ts, key=sort_key)` computes every key once, sorts the tasks by those
  // keys, and returns the tasks.

  datatype Keyed = Keyed(task: Task, key: SortKey)

  /** Each task paired with its key, in list order. */
  function Decorate(ts: seq<Task>): (r: seq<Keyed>)
    reads ts
    ensures |r| == |ts|
    ensures forall i :: 0 <= i < |ts| ==> r[i].task == ts[i] && r[i].key == KeyOf(ts[i].Value())
  {
    seq(|ts|, i reads ts requires 0 <= i < |ts| => Keyed(ts[i], KeyOf(ts[i].Value())))
  }

  /** The tasks of a list of pairs, in list order. */
  function Undecorate(ks: seq<Keyed>): (r: seq<Task>)
    ensures |r| == |ks|
    ensures forall i :: 0 <= i < |ks| ==> r[i] == ks[i].task
  {
    seq(|ks|, i requires 0 <= i < |ks| => ks[i].task)
  }

  /** Every pair carries the current key of its task. */
  predicate Faithful(ks: seq<Keyed>)
    reads set i | 0 <= i < |ks| :: ks[i].task
  {
    forall i :: 0 <= i < |ks| ==> ks[i].key == KeyOf(ks[i].task.Value())
  }

  predicate Ordered(ks: seq<Keyed>)
  {
    forall i, j :: 0 <= i < j < |ks| ==> KeyLe(ks[i].key, ks[j].key)
  }

  /** The pairs of ks whose key is k, in list order. */
  function WithKey(ks: seq<Keyed>, k: SortKey): (r: seq<Keyed>)
    ensures IsSubseq(r, ks)
    ensures forall i :: 0 <= i < |r| ==> r[i] in ks && r[i].key == k
  {
    if ks == [] then []
    else if ks[0].key == k then [ks[0]] + WithKey(ks[1..], k)
    else WithKey(ks[1..], k)
  }

  /** Puts x in front of the first pair of s whose key is not smaller than x's. */
  function Insert(x: Keyed, s: seq<Keyed>): (r: seq<Keyed>)
    ensures multiset(r) == multiset(s) + multiset{x}
    ensures |r| == |s| + 1
    ensures forall i :: 0 <= i < |r| ==> r[i] == x || r[i] in s
  {
    if s == [] || KeyLe(x.key, s[0].key) then [x] + s
    else
      assert s == [s[0]] + s[1..];
      [s[0]] + Insert(x, s[1..])
  }

  /** An insertion sort by key: a permutation of ks. */
  function SortByKey(ks: seq<Keyed>): (r: seq<Keyed>)
    ensures multiset(r) == multiset(ks)
  {
    if ks == [] then []
    else
      assert ks == [ks[0]] + ks[1..];
      Insert(ks[0], SortByKey(ks[1..]))
  }

  /** `sorted(ts, key=sort_key)`. */
  function Display(ts: seq<Task>): seq<Task>
    reads ts
  {
    Undecorate(SortByKey(Decorate(ts)))
  }

  /** Inserting into an ordered list keeps it ordered. */
  lemma {:induction false} InsertOrdered(x: Keyed, s: seq<Keyed>)
    requires Ordered(s)
    ensures Ordered(Insert(x, s))
    decreases |s|
  {
    if s != [] && !KeyLe(x.key, s[0].key) {
      InsertOrdered(x, s[1..]);
      var r := Insert(x, s);
      assert r == [s[0]] + Insert(x, s[1..]);
      forall j | 0 < j < |r|
        ensures KeyLe(s[0].key, r[j].key)
      {
        assert r[j] == x || r[j] in s[1..];
      }
    }
  }

  /** x lands in front of every pair of s with the same key, and the other pairs
      keep their order: inserting is stable. */
  lemma {:induction false} InsertStable(x: Keyed, s: seq<Keyed>, k: SortKey)
    ensures WithKey(Insert(x, s), k) == if x.key == k then [x] + WithKey(s, k) else WithKey(s, k)
    decreases |s|
  {
    if s != [] && !KeyLe(x.key, s[0].key) {
      InsertStable(x, s[1..], k);
      assert Insert(x, s)[1..] == Insert(x, s[1..]);
    }
  }

  lemma {:induction false} SortByKeyOrdered(ks: seq<Keyed>)
    ensures Ordered(SortByKey(ks))
    decreases |ks|
  {
    if ks != [] {
      SortByKeyOrdered(ks[1..]);
      InsertOrdered(ks[0], SortByKey(ks[1..]));
    }
  }

  lemma {:induction false} SortByKeyStable(ks: seq<Keyed>)
    ensures forall k :: WithKey(SortByKey(ks), k) == WithKey(ks, k)
    decreases |ks|
  {
    if ks != [] {
      SortByKeyStable(ks[1..]);
      forall k
        ensures WithKey(SortByKey(ks), k) == WithKey(ks, k)
      {
        InsertStable(ks[0], SortByKey(ks[1..]), k);
      }
    }
  }

  lemma UndecorateCons(x: Keyed, s: seq<Keyed>)
    ensures Undecorate([x] + s) == [x.task] + Undecorate(s)
  {
  }

  /** Inserting a pair adds its task to the tasks. */
  lemma {:induction false} UndecorateInsert(x: Keyed, s: seq<Keyed>)
    ensures multiset(Undecorate(Insert(x, s))) == multiset(Undecorate(s)) + multiset{x.task}
    decreases |s|
  {
    if s == [] || KeyLe(x.key, s[0].key) {
      UndecorateCons(x, s);
    } else {
      UndecorateInsert(x, s[1..]);
      UndecorateCons(s[0], Insert(x, s[1..]));
      assert s == [s[0]] + s[1..];
      UndecorateCons(s[0], s[1..]);
    }
  }

  /** Sorting the pairs permutes their tasks. */
  lemma {:induction false} UndecorateSort(ks: seq<Keyed>)
    ensures multiset(Undecorate(SortByKey(ks))) == multiset(Undecorate(ks))
    decreases |ks|
  {
    if ks != [] {
      UndecorateSort(ks[1..]);
      UndecorateInsert(ks[0], SortByKey(ks[1..]));
      assert ks == [ks[0]] + ks[1..];
      UndecorateCons(ks[0], ks[1..]);
    }
  }

  /** For pairs that carry their tasks' keys, the group of a key among the tasks is
      the tasks of the group among the pairs. */
  lemma {:induction false} GroupUndecorated(ks: seq<Keyed>, k: SortKey)
    requires Faithful(ks)
    ensures Group(Undecorate(ks), k) == Undecorate(WithKey(ks, k))
    decreases |ks|
  {
    if ks != [] {
      GroupUndecorated(ks[1..], k);
      assert Undecorate(ks)[1..] == Undecorate(ks[1..]);
      if ks[0].key == k {
        assert Undecorate(WithKey(ks, k)) == [ks[0].task] + Undecorate(WithKey(ks[1..], k));
      }
    }
  }

  /** The display order is a permutation of the stored tasks. */
  lemma DisplayPermutes(ts: seq<Task>)
    ensures multiset(Display(ts)) == multiset(ts)
    ensures forall i :: 0 <= i < |Display(ts)| ==> Display(ts)[i] in ts
  {
    var d := Decorate(ts);
    assert Undecorate(d) == ts;
    UndecorateSort(d);
    forall i | 0 <= i < |Display(ts)|
      ensures Display(ts)[i] in ts
    {
      assert Display(ts)[i] in multiset(ts);
    }
  }

  /** The pairs of the sorted list are pairs of the decorated list, so they carry
      their tasks' current keys. */
  lemma SortedFaithful(ts: seq<Task>)
    ensures Faithful(SortByKey(Decorate(ts)))
  {
    var d := Decorate(ts);
    var s := SortByKey(d);
    forall i | 0 <= i < |s|
      ensures s[i].key == KeyOf(s[i].task.Value())
    {
      assert s[i] in multiset(d);
      var j :| 0 <= j < |d| && d[j] == s[i];
    }
  }

  /** The display order is sorted by the key. */
  lemma DisplaySorted(ts: seq<Task>)
    ensures Sorted(Display(ts))
  {
    var s := SortByKey(Decorate(ts));
    SortByKeyOrdered(Decorate(ts));
    SortedFaithful(ts);
    assert forall i :: 0 <= i < |s| ==> Display(ts)[i] == s[i].task;
  }

  /** Tasks with the same key keep their stored order in the display order. */
  lemma DisplayStable(ts: seq<Task>)
    ensures forall k :: Group(Display(ts), k) == Group(ts, k)
  {
    var d := Decorate(ts);
    var s := SortByKey(d);
    assert Undecorate(d) == ts;
    SortByKeyStable(d);
    SortedFaithful(ts);
    forall k
      ensures Group(Display(ts), k) == Group(ts, k)
    {
      GroupUndecorated(d, k);
      GroupUndecorated(s, k);
    }
  }
}
