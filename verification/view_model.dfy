/** The task-list commands of UI/MainWindow/ViewModels/ToDoListWindowViewModel.cs
    (and of the older UI/MainWindow/ToDoListWindowViewModel.cs, whose
    AddNewTask and RemoveTask are the same): adding, removing and moving a
    task in the forest `TasksList`. */
module ViewModel {
  import opened Wrappers
  import opened Tasks
  import opened TaskHelper
  import opened ForestEdits

  // ---------------------------------------------------------------------
  // Adding and removing

  /** `AddNewTask(parentTask)`: a new task goes to the end of the parent's
      subtasks, or of the top-level list when there is no parent. */
  function AddNewTask(f: seq<Task>, parent: Option<Task>, id: TaskId, defaultStatus: Status): (r: seq<Task>)
    ensures parent.None? ==> Kids(r) == Kids(f) + [id] && r[..|f|] == f && r[|f|] == NewTask(id, defaultStatus)
    ensures parent.Some? ==> Kids(r) == Kids(f)
  {
    var task := NewTask(id, defaultStatus);
    match parent
    case Some(p) => EditForest(f, p.id, Append(task))
    case None =>
      assert (f + [task])[..|f|] == f;
      f + [task]
  }

  /** `RemoveTask(taskToRemove)`: a task with a parent leaves the parent's
      subtasks and the top-level list is not touched; otherwise it leaves the
      top-level list, if it is there. */
  function RemoveTask(f: seq<Task>, task: Task): (r: seq<Task>)
    ensures FindParentTask(f, task.id).Some? ==> Kids(r) == Kids(f)
    ensures FindParentTask(f, task.id).None? && task.id in Kids(f) ==>
      var k := IndexOfId(Kids(f), task.id); Kids(r) == Kids(f)[..k] + Kids(f)[k+1..]
    ensures FindParentTask(f, task.id).None? && task.id !in Kids(f) ==> r == f
  {
    match FindParentTask(f, task.id)
    case Some(p) => EditForest(f, p.id, Remove(task.id))
    case None =>
      var r := RemoveFirst(f, task.id);
      if task.id in Kids(f) then KidsRemoveFirst(f, task.id); r else r
  }

  /** A forest where every task occurs once, with one task's subtree
      replaced by one that brings no task of the forest along, still has
      every task once. */
  lemma UniqueFromCount(f: seq<Task>, g: seq<Task>, plus: multiset<TaskId>)
    requires Unique(f) && multiset(ForestIds(g)) == multiset(ForestIds(f)) + plus
    requires forall x | x in plus :: plus[x] == 1 && x !in ForestIds(f)
    ensures Unique(g)
  {
    forall x ensures multiset(ForestIds(g))[x] <= 1 {
      UniqueCount(f, x);
    }
    CountUnique(g);
  }

  /** A new task adds exactly its own id. */
  lemma AddNewTaskIds(f: seq<Task>, parent: Option<Task>, id: TaskId, defaultStatus: Status)
    requires Unique(f) && id !in ForestIds(f)
    requires parent.Some? ==> parent.value in ForestNodes(f)
    ensures var r := AddNewTask(f, parent, id, defaultStatus);
      multiset(ForestIds(r)) == multiset(ForestIds(f)) + multiset{id} && Unique(r)
  {
    var task := NewTask(id, defaultStatus);
    var r := AddNewTask(f, parent, id, defaultStatus);
    assert multiset(Ids(task)) == multiset{id};
    match parent {
      case None =>
        AppendIds(f, task);
      case Some(p) =>
        UniqueNode(f, p);
        UniqueCount(f, p.id);
        assert multiset(ForestIds(f))[p.id] == 1;
        EditForestGrows(f, p.id, Append(task), p);
    }
    UniqueFromCount(f, r, multiset{id});
  }

  /** `AddNewTask(p)` puts the new task at the end of `p`'s subtasks, and
      every other task keeps its own subtask list. */
  lemma AddNewTaskNested(f: seq<Task>, p: Task, id: TaskId, defaultStatus: Status)
    requires Unique(f) && p in ForestNodes(f) && id !in ForestIds(f)
    ensures var r := AddNewTask(f, Some(p), id, defaultStatus);
      && Find(r, p.id) == Some(p.(subTasks := p.subTasks + [NewTask(id, defaultStatus)]))
      && forall x | x in ForestIds(f) && x != p.id ::
           Find(r, x).Some? && Kids(Find(r, x).value.subTasks) == Kids(Find(f, x).value.subTasks)
  {
    var task := NewTask(id, defaultStatus);
    var e := Append(task);
    var r := AddNewTask(f, Some(p), id, defaultStatus);
    UniqueNode(f, p);
    NotInOwnSubtasks(f, p);
    UniqueCount(f, p.id);
    ForestIdsConcat(p.subTasks, [task]);
    SingletonIds(task);
    EditForestFindTarget(f, p.id, e, p);
    AddNewTaskIds(f, Some(p), id, defaultStatus);
    forall x | x in ForestIds(f) && x != p.id
      ensures Find(r, x).Some? && Kids(Find(r, x).value.subTasks) == Kids(Find(f, x).value.subTasks)
    {
      UniqueCount(f, x);
      assert multiset(ForestIds(f))[x] == 1;
      UniqueCount(r, x);
      assert multiset(ForestIds(r))[x] == 1;
      EditForestFindOther(f, p.id, e, x, Find(f, x).value);
    }
  }

  /** Removing a task from a forest where every task occurs once takes away
      exactly its subtree. */
  lemma RemoveTaskDropsSubtree(f: seq<Task>, n: Task)
    requires Unique(f) && n in ForestNodes(f)
    ensures var r := RemoveTask(f, n);
      && multiset(Ids(n)) <= multiset(ForestIds(f))
      && multiset(ForestIds(r)) == multiset(ForestIds(f)) - multiset(Ids(n))
      && Unique(r) && n.id !in ForestIds(r)
  {
    var r := RemoveTask(f, n);
    RemoveTaskIds(f, n);
    UniqueCount(f, n.id);
    assert multiset(Ids(n))[n.id] >= 1 by {
      assert Ids(n)[0] == n.id;
    }
    forall x ensures multiset(ForestIds(r))[x] <= 1 {
      UniqueCount(f, x);
    }
    CountUnique(r);
  }

  /** The multiset half of `RemoveTaskDropsSubtree`. */
  lemma RemoveTaskIds(f: seq<Task>, n: Task)
    requires Unique(f) && n in ForestNodes(f)
    ensures var r := RemoveTask(f, n);
      && multiset(Ids(n)) <= multiset(ForestIds(f))
      && multiset(ForestIds(r)) == multiset(ForestIds(f)) - multiset(Ids(n))
  {
    match FindParentTask(f, n.id) {
      case Some(p) =>
        ParentFacts(f, p, n);
        EditForestShrinks(f, p.id, n.id, p);
      case None =>
        TopLevelTask(f, n);
        RemoveIds(f, n.id);
    }
  }

  /** `RemoveTask` of a nested task changes only its parent's subtasks. */
  lemma RemoveNestedTask(f: seq<Task>, n: Task, p: Task)
    requires Unique(f) && n in ForestNodes(f) && FindParentTask(f, n.id) == Some(p)
    ensures var r := RemoveTask(f, n);
      && Find(r, p.id) == Some(p.(subTasks := RemoveFirst(p.subTasks, n.id)))
      && Kids(RemoveFirst(p.subTasks, n.id)) == Kids(p.subTasks)[..IndexOf(p.subTasks, n.id)] + Kids(p.subTasks)[IndexOf(p.subTasks, n.id)+1..]
      && forall x | x in ForestIds(r) && x != p.id ::
           Find(f, x).Some? && Kids(Find(r, x).value.subTasks) == Kids(Find(f, x).value.subTasks)
  {
    RemovedParentFound(f, n, p);
    KidsRemoveFirst(p.subTasks, n.id);
    RemoveKeepsOtherLists(f, n, p);
  }

  lemma RemovedParentFound(f: seq<Task>, n: Task, p: Task)
    requires Unique(f) && n in ForestNodes(f) && FindParentTask(f, n.id) == Some(p)
    ensures Find(RemoveTask(f, n), p.id) == Some(p.(subTasks := RemoveFirst(p.subTasks, n.id)))
  {
    assert RemoveTask(f, n) == EditForest(f, p.id, Remove(n.id));
    ParentFacts(f, p, n);
    RemoveFromParent(f, p, n.id);
  }

  lemma RemoveFromParent(f: seq<Task>, p: Task, c: TaskId)
    requires multiset(ForestIds(f))[p.id] == 1 && Find(f, p.id) == Some(p)
    requires c in Kids(p.subTasks) && p.id !in ForestIds(p.subTasks)
    ensures Find(EditForest(f, p.id, Remove(c)), p.id) == Some(p.(subTasks := RemoveFirst(p.subTasks, c)))
  {
    RemovedListOmitsParent(p, c);
    EditForestFindTarget(f, p.id, Remove(c), p);
  }

  lemma RemoveKeepsOtherLists(f: seq<Task>, n: Task, p: Task)
    requires Unique(f) && n in ForestNodes(f) && FindParentTask(f, n.id) == Some(p)
    ensures var r := RemoveTask(f, n);
      forall x | x in ForestIds(r) && x != p.id ::
        Find(f, x).Some? && Kids(Find(r, x).value.subTasks) == Kids(Find(f, x).value.subTasks)
  {
    var r := RemoveTask(f, n);
    var e := Remove(n.id);
    assert r == EditForest(f, p.id, e);
    RemoveTaskDropsSubtree(f, n);
    UniqueNode(f, p);
    UniqueCount(f, p.id);
    forall x | x in ForestIds(r) && x != p.id
      ensures Find(f, x).Some? && Kids(Find(r, x).value.subTasks) == Kids(Find(f, x).value.subTasks)
    {
      UniqueCount(f, x);
      assert multiset(ForestIds(r))[x] >= 1;
      assert multiset(ForestIds(f))[x] >= 1;
      EditForestFindOther(f, p.id, e, x, Find(f, x).value);
    }
  }

  /** `RemoveTask` of a top-level task takes it out of the top-level list. */
  lemma RemoveTopLevelTask(f: seq<Task>, i: nat)
    requires Unique(f) && i < |f|
    ensures RemoveTask(f, f[i]) == f[..i] + f[i+1..]
  {
    FindParentTaskOfTopLevel(f, i);
    KidsWithin(f);
    ListInForestNodes(f, i);
    var k := IndexOf(f, f[i].id);
    if k < i {
      TopLevelDistinct(f, k, i);
      assert false;
    }
  }

  /** Adding a new task and removing it again gives back the forest. */
  lemma AddThenRemove(f: seq<Task>, parent: Option<Task>, id: TaskId, defaultStatus: Status)
    requires Unique(f) && id !in ForestIds(f)
    requires parent.Some? ==> parent.value in ForestNodes(f)
    ensures RemoveTask(AddNewTask(f, parent, id, defaultStatus), NewTask(id, defaultStatus)) == f
  {
    var task := NewTask(id, defaultStatus);
    var g := AddNewTask(f, parent, id, defaultStatus);
    AddNewTaskIds(f, parent, id, defaultStatus);
    match parent
    case None =>
      assert g[|f|] == task;
      RemoveTopLevelTask(g, |f|);
      assert g[..|f|] + g[|f|+1..] == f;
    case Some(p) =>
      AddNewTaskNested(f, p, id, defaultStatus);
      var p' := Find(g, p.id).value;
      assert id in Kids(p'.subTasks) by {
        assert p'.subTasks[|p.subTasks|] == task;
      }
      assert HasParentIn(g, id);
      var q := FindParentTask(g, id).value;
      AppendedParentForest(f, p.id, task, q);
      AppendThenRemoveForest(f, p.id, task);
  }

  // ---------------------------------------------------------------------
  // Moving (drag and drop)

  /** `TaskHelper.SwapItems(collection, after, current)`, whose body is not
      part of this model. */
  type SwapItems = (seq<Task>, TaskId, TaskId) -> seq<Task>

  /** A `SwapItems` that only rearranges the list it is given. */
  ghost predicate Permutes(swapItems: SwapItems) {
    forall cs, a, c :: multiset(swapItems(cs, a, c)) == multiset(cs)
  }

  /** `IList.Insert` with the index -1 that `IndexOf` returns for a task
      that is not in the list. */
  datatype MoveError = ArgumentOutOfRange

  /** `parentOfCurrent == parentOfAfter`: the same object, or both null. */
  predicate SameParent(a: Option<Task>, b: Option<Task>) {
    match a
    case None => b.None?
    case Some(p) => b.Some? && b.value.id == p.id
  }

  /** The ids of `ks` with `x` placed just before the first `a`. */
  function PlaceBefore(ks: seq<TaskId>, a: TaskId, x: TaskId): seq<TaskId>
    requires a in ks
  {
    var k := IndexOfId(ks, a);
    ks[..k] + [x] + ks[k..]
  }

  /** The ids of `ks` without the first `x`. */
  function Without(ks: seq<TaskId>, x: TaskId): seq<TaskId> {
    var k := IndexOfId(ks, x);
    if k < 0 then ks else ks[..k] + ks[k+1..]
  }

  /** `Move(parentOfCurrent, current, parentOfAfter, after)`. With a shared
      parent the list is handed to `SwapItems`; otherwise `current` is
      inserted at the position of `after` in after's list and then removed
      from its own. The position is taken before the insertion. */
  function Move(f: seq<Task>, parentOfCurrent: Option<Task>, current: Task,
                parentOfAfter: Option<Task>, after: Task, swapItems: SwapItems): (r: Result<seq<Task>, MoveError>)
    requires after.id !in ForestIds(current.subTasks)
    ensures r.Failure? <==>
      && !SameParent(parentOfCurrent, parentOfAfter)
      && (if parentOfAfter.None? then after.id !in Kids(f) else after.id !in Kids(parentOfAfter.value.subTasks))
  {
    if SameParent(parentOfCurrent, parentOfAfter) then
      if parentOfCurrent.None? then Success(swapItems(f, after.id, current.id))
      else
        var p := parentOfCurrent.value;
        Success(EditForest(f, p.id, ReplaceAll(swapItems(p.subTasks, after.id, current.id))))
    else if parentOfCurrent.Some? && parentOfAfter.None? then
      var k := IndexOf(f, after.id);
      if k < 0 then Failure(ArgumentOutOfRange)
      else Success(EditForest(Insert(f, k, current), parentOfCurrent.value.id, Remove(current.id)))
    else if parentOfCurrent.None? then
      var q := parentOfAfter.value;
      var k := IndexOf(q.subTasks, after.id);
      if k < 0 then Failure(ArgumentOutOfRange)
      else Success(RemoveFirst(EditForest(f, q.id, InsertAt(k, current)), current.id))
    else
      var q := parentOfAfter.value;
      var k := IndexOf(q.subTasks, after.id);
      if k < 0 then Failure(ArgumentOutOfRange)
      else Success(EditForest(EditForest(f, q.id, InsertAt(k, current)), parentOfCurrent.value.id, Remove(current.id)))
  }

  /** `MoveTask(current, after)`: looks up both parents, then moves. It
      fails only when a nested task is dropped on a task that is in no
      list at all. */
  function MoveTask(f: seq<Task>, current: Task, after: Task, swapItems: SwapItems): (r: Result<seq<Task>, MoveError>)
    requires after.id !in ForestIds(current.subTasks)
    ensures r.Failure? <==>
      FindParentTask(f, current.id).Some? && FindParentTask(f, after.id).None? && after.id !in Kids(f)
  {
    Move(f, FindParentTask(f, current.id), current, FindParentTask(f, after.id), after, swapItems)
  }

  /** Ids equal as multisets to those of a forest where every task occurs
      once again have every task once. */
  lemma UniqueSameIds(f: seq<Task>, g: seq<Task>)
    requires Unique(f) && multiset(ForestIds(g)) == multiset(ForestIds(f))
    ensures Unique(g)
  {
    forall x ensures multiset(ForestIds(g))[x] <= 1 {
      UniqueCount(f, x);
    }
    CountUnique(g);
  }

  lemma AddSub<T>(a: multiset<T>, b: multiset<T>)
    ensures b <= a + b && (a + b) - b == a
  {
    assert forall x :: ((a + b) - b)[x] == a[x];
  }

  /** The subtask of `p` with the id of `current` is `current`. */
  lemma ChildIsCurrent(f: seq<Task>, p: Task, current: Task)
    requires Unique(f) && p in ForestNodes(f) && current in ForestNodes(f)
    requires current.id in Kids(p.subTasks)
    ensures p.subTasks[IndexOf(p.subTasks, current.id)] == current
    ensures p.id !in Ids(current)
  {
    var j := IndexOf(p.subTasks, current.id);
    ChildInForest(f, p, j);
    UniqueNode(f, p.subTasks[j]);
    UniqueNode(f, current);
    NotInOwnSubtasks(f, p);
  }

  /** The parent of `after` is not inside `current`'s subtree, when `after`
      is not below `current`. */
  lemma ParentOutside(f: seq<Task>, current: Task, q: Task, k: nat)
    requires Unique(f) && current in ForestNodes(f) && q in ForestNodes(f)
    requires k < |q.subTasks| && q.subTasks[k].id !in ForestIds(current.subTasks)
    ensures q.id !in Ids(current)
  {
    if q.id in Ids(current) {
      var q' := FindIn(current, q.id).value;
      NodesWithinForest(f, current);
      UniqueNode(f, q');
      UniqueNode(f, q);
      ChildStrictlyBelow(current, q, k);
      assert false;
    }
  }

  /** Every task of `f` outside `except` is still found in `g`, with its
      status and its subtasks, by id, as they were. */
  predicate OtherListsKept(f: seq<Task>, g: seq<Task>, except: set<TaskId>) {
    forall y | y in ForestIds(f) && y !in except ::
      Find(g, y).Some? && SameList(Find(g, y).value, Find(f, y).value)
  }

  /** A subtree that stands in two forests, each holding every task once,
      is where both searches find each of its ids. */
  lemma SubtreeKept(f: seq<Task>, g: seq<Task>, n: Task)
    requires Unique(f) && Unique(g) && n in ForestNodes(f) && n in ForestNodes(g)
    ensures forall y | y in Ids(n) :: Find(g, y) == Find(f, y)
  {
    forall y | y in Ids(n) ensures Find(g, y) == Find(f, y) {
      var m := FindIn(n, y).value;
      NodesWithinForest(f, n);
      NodesWithinForest(g, n);
      UniqueNode(f, m);
      UniqueNode(g, m);
    }
  }

  /** Rearranging the top-level list keeps every task's own list. */
  lemma PermutedKeepsLists(f: seq<Task>, g: seq<Task>)
    requires Unique(f) && multiset(g) == multiset(f)
    ensures OtherListsKept(f, g, {})
  {
    forall y | y in ForestIds(f) ensures Find(g, y) == Find(f, y) {
      UniqueCount(f, y);
      FindPermuted(g, f, y);
    }
  }

  /** Both tasks in one list: only that list changes, and a `SwapItems`
      that rearranges it keeps every task of the forest. */
  lemma MoveWithinOneList(f: seq<Task>, current: Task, after: Task, swapItems: SwapItems)
    requires Unique(f) && Permutes(swapItems)
    requires after.id !in ForestIds(current.subTasks)
    requires SameParent(FindParentTask(f, current.id), FindParentTask(f, after.id))
    ensures var r := MoveTask(f, current, after, swapItems);
      && r.Success?
      && multiset(ForestIds(r.value)) == multiset(ForestIds(f)) && Unique(r.value)
      && (FindParentTask(f, current.id).None? ==>
            r.value == swapItems(f, after.id, current.id) && OtherListsKept(f, r.value, {}))
      && (FindParentTask(f, current.id).Some? ==>
            var p := FindParentTask(f, current.id).value;
            Kids(r.value) == Kids(f) &&
            Find(r.value, p.id) == Some(p.(subTasks := swapItems(p.subTasks, after.id, current.id))) &&
            OtherListsKept(f, r.value, {p.id}))
  {
    var r := MoveTask(f, current, after, swapItems);
    match FindParentTask(f, current.id)
    case None =>
      assert FindParentTask(f, after.id).None?;
      assert r == Success(swapItems(f, after.id, current.id));
      PermutedIds(swapItems(f, after.id, current.id), f);
      UniqueSameIds(f, r.value);
      PermutedKeepsLists(f, r.value);
    case Some(p) =>
      var items := swapItems(p.subTasks, after.id, current.id);
      assert r == Success(EditForest(f, p.id, ReplaceAll(items)));
      assert multiset(items) == multiset(p.subTasks);
      RearrangeList(f, p, items);
  }

  /** Rearranging the subtasks of one task keeps every task of the forest
      and changes that task's list only. */
  lemma RearrangeList(f: seq<Task>, p: Task, items: seq<Task>)
    requires Unique(f) && p in ForestNodes(f) && multiset(items) == multiset(p.subTasks)
    ensures var r := EditForest(f, p.id, ReplaceAll(items));
      && multiset(ForestIds(r)) == multiset(ForestIds(f)) && Unique(r)
      && Find(r, p.id) == Some(p.(subTasks := items))
      && OtherListsKept(f, r, {p.id})
  {
    RearrangeKeepsOthers(f, p, items);
    UniqueNode(f, p);
    NotInOwnSubtasks(f, p);
    UniqueCount(f, p.id);
    assert multiset(ForestIds(f))[p.id] == 1;
    EditForestPermutes(f, p.id, items, p);
    PermutedIds(items, p.subTasks);
    assert ApplyEdit(p.subTasks, ReplaceAll(items)) == items;
    assert multiset(ForestIds(items))[p.id] == 0;
    EditForestFindTarget(f, p.id, ReplaceAll(items), p);
    UniqueSameIds(f, EditForest(f, p.id, ReplaceAll(items)));
  }

  lemma RearrangeKeepsOthers(f: seq<Task>, p: Task, items: seq<Task>)
    requires Unique(f) && p in ForestNodes(f) && multiset(items) == multiset(p.subTasks)
    ensures OtherListsKept(f, EditForest(f, p.id, ReplaceAll(items)), {p.id})
  {
    var e := ReplaceAll(items);
    var r := EditForest(f, p.id, e);
    UniqueNode(f, p);
    UniqueCount(f, p.id);
    EditForestPermutes(f, p.id, items, p);
    forall y | y in ForestIds(f) && y !in {p.id}
      ensures Find(r, y).Some? && SameList(Find(r, y).value, Find(f, y).value)
    {
      UniqueCount(f, y);
      EditForestFindOther(f, p.id, e, y, Find(f, y).value);
      EditTaskKeepsList(Find(f, y).value, p.id, e);
    }
  }

  /** A nested task dropped on a top-level task: it now stands just before
      that task in the top-level list, its old parent no longer lists it,
      and the forest holds the same tasks. */
  lemma MoveUpToTopLevel(f: seq<Task>, current: Task, after: Task, swapItems: SwapItems)
    requires Unique(f) && current in ForestNodes(f)
    requires after.id !in ForestIds(current.subTasks)
    requires FindParentTask(f, current.id).Some? && FindParentTask(f, after.id).None?
    requires after.id in Kids(f)
    ensures var r := MoveTask(f, current, after, swapItems);
      var p := FindParentTask(f, current.id).value;
      && r.Success?
      && multiset(ForestIds(r.value)) == multiset(ForestIds(f)) && Unique(r.value)
      && Kids(r.value) == PlaceBefore(Kids(f), after.id, current.id)
      && Find(r.value, p.id).Some?
      && Kids(Find(r.value, p.id).value.subTasks) == Without(Kids(p.subTasks), current.id)
      && OtherListsKept(f, r.value, {p.id})
  {
    var p := FindParentTask(f, current.id).value;
    var k := IndexOf(f, after.id);
    assert MoveTask(f, current, after, swapItems)
        == Success(EditForest(Insert(f, k, current), p.id, Remove(current.id)));
    LiftToTopLevel(f, current, p, k);
    LiftKeepsOthers(f, current, p, k);
  }

  /** What `Unique` gives about a parent `p` of `current`. */
  lemma ParentFacts(f: seq<Task>, p: Task, current: Task)
    requires Unique(f) && p in ForestNodes(f) && current in ForestNodes(f)
    requires current.id in Kids(p.subTasks)
    ensures multiset(ForestIds(f))[p.id] == 1 && Find(f, p.id) == Some(p)
    ensures p.id !in ForestIds(p.subTasks) && p.id !in Ids(current)
    ensures p.subTasks[IndexOf(p.subTasks, current.id)] == current
  {
    ChildIsCurrent(f, p, current);
    UniqueNode(f, p);
    NotInOwnSubtasks(f, p);
    UniqueCount(f, p.id);
  }

  /** Removing `current` from the list of `p` leaves no task with the id
      of `p` in that list. */
  lemma RemovedListOmitsParent(p: Task, c: TaskId)
    requires c in Kids(p.subTasks) && p.id !in ForestIds(p.subTasks)
    ensures p.id !in ForestIds(RemoveFirst(p.subTasks, c))
    ensures ApplyEdit(p.subTasks, Remove(c)) == RemoveFirst(p.subTasks, c)
  {
    RemoveIds(p.subTasks, c);
    assert multiset(ForestIds(p.subTasks))[p.id] == 0;
  }

  /** The first half of `LiftToTopLevel`: after the insertion into the
      top-level list, `p` is still found once and unchanged. */
  lemma LiftInsert(f: seq<Task>, current: Task, p: Task, k: nat)
    requires Unique(f) && current in ForestNodes(f)
    requires p in ForestNodes(f) && current.id in Kids(p.subTasks) && k < |f|
    ensures var f1 := Insert(f, k, current);
      && multiset(ForestIds(f1)) == multiset(ForestIds(f)) + multiset(Ids(current))
      && multiset(ForestIds(f1))[p.id] == 1 && Find(f1, p.id) == Some(p)
  {
    ParentFacts(f, p, current);
    InsertIds(f, k, current);
    assert multiset(Ids(current))[p.id] == 0;
    FindAfterInsert(f, k, current, p.id);
  }

  /** `LiftToTopLevel` keeps every task of the forest. */
  lemma LiftIds(f: seq<Task>, current: Task, p: Task, k: nat)
    requires Unique(f) && current in ForestNodes(f)
    requires p in ForestNodes(f) && current.id in Kids(p.subTasks) && k < |f|
    ensures var r := EditForest(Insert(f, k, current), p.id, Remove(current.id));
      multiset(ForestIds(r)) == multiset(ForestIds(f)) && Unique(r)
  {
    var f1 := Insert(f, k, current);
    var r := EditForest(f1, p.id, Remove(current.id));
    ParentFacts(f, p, current);
    LiftInsert(f, current, p, k);
    EditForestShrinks(f1, p.id, current.id, p);
    AddSub(multiset(ForestIds(f)), multiset(Ids(current)));
    UniqueSameIds(f, r);
  }

  /** Inserting `current` into the top-level list at `k` and removing it
      from its parent `p`. */
  lemma LiftToTopLevel(f: seq<Task>, current: Task, p: Task, k: nat)
    requires Unique(f) && current in ForestNodes(f)
    requires p in ForestNodes(f) && current.id in Kids(p.subTasks) && k < |f|
    ensures var r := EditForest(Insert(f, k, current), p.id, Remove(current.id));
      && multiset(ForestIds(r)) == multiset(ForestIds(f)) && Unique(r)
      && Kids(r) == Kids(f)[..k] + [current.id] + Kids(f)[k..]
      && Find(r, p.id).Some?
      && Kids(Find(r, p.id).value.subTasks) == Without(Kids(p.subTasks), current.id)
  {
    var c := current.id;
    var f1 := Insert(f, k, current);
    LiftIds(f, current, p, k);
    ParentFacts(f, p, current);
    LiftInsert(f, current, p, k);
    KidsInsert(f, k, current);
    RemovedListOmitsParent(p, c);
    EditForestFindTarget(f1, p.id, Remove(c), p);
    KidsRemoveFirst(p.subTasks, c);
  }

  /** Lifting `current` out of the list of `p` changes no other list. */
  lemma LiftKeepsOthers(f: seq<Task>, current: Task, p: Task, k: nat)
    requires Unique(f) && current in ForestNodes(f)
    requires p in ForestNodes(f) && current.id in Kids(p.subTasks) && k < |f|
    ensures OtherListsKept(f, EditForest(Insert(f, k, current), p.id, Remove(current.id)), {p.id})
  {
    var r := EditForest(Insert(f, k, current), p.id, Remove(current.id));
    LiftIds(f, current, p, k);
    LiftCurrentStays(f, current, p, k);
    SubtreeKept(f, r, current);
    forall y | y in ForestIds(f) && y !in {p.id} && y !in Ids(current)
      ensures Find(r, y).Some? && SameList(Find(r, y).value, Find(f, y).value)
    {
      LiftOther(f, current, p, k, y);
    }
  }

  /** After the lift `current` stands in the top-level list at `k` with
      its subtree as it was. */
  lemma LiftCurrentStays(f: seq<Task>, current: Task, p: Task, k: nat)
    requires Unique(f) && current in ForestNodes(f)
    requires p in ForestNodes(f) && current.id in Kids(p.subTasks) && k < |f|
    ensures current in ForestNodes(EditForest(Insert(f, k, current), p.id, Remove(current.id)))
  {
    var r := EditForest(Insert(f, k, current), p.id, Remove(current.id));
    ParentFacts(f, p, current);
    EditTaskUnchanged(current, p.id, Remove(current.id));
    assert r[k] == current;
    ListInForestNodes(r, k);
  }

  lemma LiftOther(f: seq<Task>, current: Task, p: Task, k: nat, y: TaskId)
    requires Unique(f) && current in ForestNodes(f)
    requires p in ForestNodes(f) && current.id in Kids(p.subTasks) && k < |f|
    requires y in ForestIds(f) && y != p.id && y !in Ids(current)
    ensures var r := EditForest(Insert(f, k, current), p.id, Remove(current.id));
      Find(r, y).Some? && SameList(Find(r, y).value, Find(f, y).value)
  {
    var f1 := Insert(f, k, current);
    var m := Find(f, y).value;
    LiftIds(f, current, p, k);
    LiftInsert(f, current, p, k);
    UniqueCount(f, y);
    assert multiset(Ids(current))[y] == 0;
    FindAfterInsert(f, k, current, y);
    EditForestFindOther(f1, p.id, Remove(current.id), y, m);
    EditTaskKeepsList(m, p.id, Remove(current.id));
  }

  /** A top-level task dropped on a nested task: it now stands just before
      that task in the latter's parent, the top-level list no longer holds
      it, and the forest holds the same tasks. */
  lemma MoveDownFromTopLevel(f: seq<Task>, current: Task, after: Task, swapItems: SwapItems)
    requires Unique(f) && current in ForestNodes(f)
    requires after.id !in ForestIds(current.subTasks)
    requires FindParentTask(f, current.id).None? && FindParentTask(f, after.id).Some?
    ensures var r := MoveTask(f, current, after, swapItems);
      var q := FindParentTask(f, after.id).value;
      && r.Success?
      && multiset(ForestIds(r.value)) == multiset(ForestIds(f)) && Unique(r.value)
      && Kids(r.value) == Without(Kids(f), current.id)
      && Find(r.value, q.id).Some?
      && Kids(Find(r.value, q.id).value.subTasks) == PlaceBefore(Kids(q.subTasks), after.id, current.id)
      && OtherListsKept(f, r.value, {q.id})
  {
    var q := FindParentTask(f, after.id).value;
    var k := IndexOf(q.subTasks, after.id);
    assert MoveTask(f, current, after, swapItems)
        == Success(RemoveFirst(EditForest(f, q.id, InsertAt(k, current)), current.id));
    TopLevelTask(f, current);
    SinkIntoList(f, current, q, k);
    SinkKeepsOthers(f, current, q, k);
  }

  /** A task that has no parent stands in the top-level list. */
  lemma TopLevelTask(f: seq<Task>, current: Task)
    requires Unique(f) && current in ForestNodes(f) && FindParentTask(f, current.id).None?
    ensures current.id in Kids(f) && f[IndexOf(f, current.id)] == current
  {
    InListOrHasParent(f, current);
    var i := IndexOf(f, current.id);
    ListInForestNodes(f, i);
    UniqueNode(f, f[i]);
    UniqueNode(f, current);
  }

  /** What `Unique` gives about the task `q` whose list `current` is
      inserted into at `k`. */
  lemma TargetFacts(f: seq<Task>, current: Task, q: Task, k: nat)
    requires Unique(f) && current in ForestNodes(f) && q in ForestNodes(f)
    requires k < |q.subTasks| && q.subTasks[k].id !in ForestIds(current.subTasks)
    ensures multiset(ForestIds(f))[q.id] == 1 && Find(f, q.id) == Some(q)
    ensures q.id !in ForestIds(q.subTasks) && q.id !in Ids(current)
    ensures q.id !in ForestIds(Insert(q.subTasks, k, current))
  {
    ParentOutside(f, current, q, k);
    ChildInForest(f, q, k);
    ParentFacts(f, q, q.subTasks[k]);
    NotInAfterInsert(q.subTasks, k, current, q.id);
  }

  /** The first half of `SinkIntoList`: after the insertion into the list
      of `q`, the top-level list is as it was. */
  lemma SinkInsert(f: seq<Task>, current: Task, q: Task, k: nat)
    requires Unique(f) && current in ForestNodes(f) && q in ForestNodes(f)
    requires k < |q.subTasks| && q.subTasks[k].id !in ForestIds(current.subTasks)
    requires current.id in Kids(f) && f[IndexOf(f, current.id)] == current
    ensures var f1 := EditForest(f, q.id, InsertAt(k, current));
      && multiset(ForestIds(f1)) == multiset(ForestIds(f)) + multiset(Ids(current))
      && Find(f1, q.id) == Some(q.(subTasks := Insert(q.subTasks, k, current)))
      && f1[IndexOf(f, current.id)] == current
  {
    var ins := InsertAt(k, current);
    TargetFacts(f, current, q, k);
    EditForestGrows(f, q.id, ins, q);
    EditTaskUnchanged(current, q.id, ins);
    EditForestFindTarget(f, q.id, ins, q);
  }

  /** `SinkIntoList` keeps every task of the forest. */
  lemma SinkIds(f: seq<Task>, current: Task, q: Task, k: nat)
    requires Unique(f) && current in ForestNodes(f) && q in ForestNodes(f)
    requires k < |q.subTasks| && q.subTasks[k].id !in ForestIds(current.subTasks)
    requires current.id in Kids(f) && f[IndexOf(f, current.id)] == current
    ensures var r := RemoveFirst(EditForest(f, q.id, InsertAt(k, current)), current.id);
      multiset(ForestIds(r)) == multiset(ForestIds(f)) && Unique(r)
  {
    var f1 := EditForest(f, q.id, InsertAt(k, current));
    var r := RemoveFirst(f1, current.id);
    SinkInsert(f, current, q, k);
    RemoveIds(f1, current.id);
    AddSub(multiset(ForestIds(f)), multiset(Ids(current)));
    UniqueSameIds(f, r);
  }

  /** Inserting the top-level task `current` into the list of `q` at `k`
      and removing it from the top-level list. */
  lemma SinkIntoList(f: seq<Task>, current: Task, q: Task, k: nat)
    requires Unique(f) && current in ForestNodes(f) && q in ForestNodes(f)
    requires k < |q.subTasks| && q.subTasks[k].id !in ForestIds(current.subTasks)
    requires current.id in Kids(f) && f[IndexOf(f, current.id)] == current
    ensures var r := RemoveFirst(EditForest(f, q.id, InsertAt(k, current)), current.id);
      && multiset(ForestIds(r)) == multiset(ForestIds(f)) && Unique(r)
      && Kids(r) == Without(Kids(f), current.id)
      && Find(r, q.id) == Some(q.(subTasks := Insert(q.subTasks, k, current)))
      && Kids(Insert(q.subTasks, k, current)) == Kids(q.subTasks)[..k] + [current.id] + Kids(q.subTasks)[k..]
  {
    var f1 := EditForest(f, q.id, InsertAt(k, current));
    SinkIds(f, current, q, k);
    KidsRemoveFirst(f1, current.id);
    SinkFindsTarget(f, current, q, k);
    KidsInsert(q.subTasks, k, current);
  }

  /** After the sink `q` holds `current` at `k`. */
  lemma SinkFindsTarget(f: seq<Task>, current: Task, q: Task, k: nat)
    requires Unique(f) && current in ForestNodes(f) && q in ForestNodes(f)
    requires k < |q.subTasks| && q.subTasks[k].id !in ForestIds(current.subTasks)
    requires current.id in Kids(f) && f[IndexOf(f, current.id)] == current
    ensures Find(RemoveFirst(EditForest(f, q.id, InsertAt(k, current)), current.id), q.id)
         == Some(q.(subTasks := Insert(q.subTasks, k, current)))
  {
    var f1 := EditForest(f, q.id, InsertAt(k, current));
    SinkInsert(f, current, q, k);
    TargetFacts(f, current, q, k);
    assert IndexOf(f1, current.id) == IndexOf(f, current.id) by {
      assert Kids(f1) == Kids(f);
    }
    FindAfterRemoveOther(f1, current.id, q.id);
  }

  /** Sinking `current` into the list of `q` changes no other list. */
  lemma SinkKeepsOthers(f: seq<Task>, current: Task, q: Task, k: nat)
    requires Unique(f) && current in ForestNodes(f) && q in ForestNodes(f)
    requires k < |q.subTasks| && q.subTasks[k].id !in ForestIds(current.subTasks)
    requires current.id in Kids(f) && f[IndexOf(f, current.id)] == current
    ensures OtherListsKept(f, RemoveFirst(EditForest(f, q.id, InsertAt(k, current)), current.id), {q.id})
  {
    var r := RemoveFirst(EditForest(f, q.id, InsertAt(k, current)), current.id);
    var q1 := q.(subTasks := Insert(q.subTasks, k, current));
    SinkIntoList(f, current, q, k);
    ChildInForest(r, q1, k);
    SubtreeKept(f, r, current);
    forall y | y in ForestIds(f) && y !in {q.id} && y !in Ids(current)
      ensures Find(r, y).Some? && SameList(Find(r, y).value, Find(f, y).value)
    {
      SinkOther(f, current, q, k, y);
    }
  }

  lemma SinkOther(f: seq<Task>, current: Task, q: Task, k: nat, y: TaskId)
    requires Unique(f) && current in ForestNodes(f) && q in ForestNodes(f)
    requires k < |q.subTasks| && q.subTasks[k].id !in ForestIds(current.subTasks)
    requires current.id in Kids(f) && f[IndexOf(f, current.id)] == current
    requires y in ForestIds(f) && y != q.id && y !in Ids(current)
    ensures var r := RemoveFirst(EditForest(f, q.id, InsertAt(k, current)), current.id);
      Find(r, y).Some? && SameList(Find(r, y).value, Find(f, y).value)
  {
    var f1 := EditForest(f, q.id, InsertAt(k, current));
    var m := Find(f, y).value;
    SinkIds(f, current, q, k);
    SinkInsert(f, current, q, k);
    TargetFacts(f, current, q, k);
    UniqueCount(f, y);
    assert multiset(Ids(current))[y] == 0;
    EditForestFindOther(f, q.id, InsertAt(k, current), y, m);
    EditTaskKeepsList(m, q.id, InsertAt(k, current));
    FindAfterRemove(f1, current.id, y);
  }

  /** A nested task dropped on a task with another parent: it now stands
      just before that task in the new parent's list, its old parent no
      longer lists it, the top-level list is as it was, and the forest
      holds the same tasks. */
  lemma MoveBetweenParents(f: seq<Task>, current: Task, after: Task, swapItems: SwapItems)
    requires Unique(f) && current in ForestNodes(f)
    requires after.id !in ForestIds(current.subTasks)
    requires FindParentTask(f, current.id).Some? && FindParentTask(f, after.id).Some?
    requires !SameParent(FindParentTask(f, current.id), FindParentTask(f, after.id))
    ensures var r := MoveTask(f, current, after, swapItems);
      var p := FindParentTask(f, current.id).value;
      var q := FindParentTask(f, after.id).value;
      && r.Success?
      && multiset(ForestIds(r.value)) == multiset(ForestIds(f)) && Unique(r.value)
      && Kids(r.value) == Kids(f)
      && Find(r.value, q.id).Some?
      && Kids(Find(r.value, q.id).value.subTasks) == PlaceBefore(Kids(q.subTasks), after.id, current.id)
      && Find(r.value, p.id).Some?
      && Kids(Find(r.value, p.id).value.subTasks) == Without(Kids(p.subTasks), current.id)
      && OtherListsKept(f, r.value, {p.id, q.id})
  {
    var p := FindParentTask(f, current.id).value;
    var q := FindParentTask(f, after.id).value;
    var k := IndexOf(q.subTasks, after.id);
    assert MoveTask(f, current, after, swapItems)
        == Success(EditForest(EditForest(f, q.id, InsertAt(k, current)), p.id, Remove(current.id)));
    BetweenIds(f, current, p, q, k);
    BetweenOldParent(f, current, p, q, k);
    BetweenNewParent(f, current, p, q, k);
    BetweenKeepsOthers(f, current, p, q, k);
  }

  /** The first half of a move between two parents: after the insertion
      into the list of `q`, both parents are still found once. */
  lemma BetweenInsert(f: seq<Task>, current: Task, p: Task, q: Task, k: nat)
    requires Unique(f) && current in ForestNodes(f)
    requires p in ForestNodes(f) && current.id in Kids(p.subTasks)
    requires q in ForestNodes(f) && k < |q.subTasks| && q.subTasks[k].id !in ForestIds(current.subTasks)
    requires p.id != q.id
    ensures var f1 := EditForest(f, q.id, InsertAt(k, current));
      && multiset(ForestIds(f1)) == multiset(ForestIds(f)) + multiset(Ids(current))
      && multiset(ForestIds(f1))[p.id] == 1 && multiset(ForestIds(f1))[q.id] == 1
  {
    ParentFacts(f, p, current);
    TargetFacts(f, current, q, k);
    EditForestGrows(f, q.id, InsertAt(k, current), q);
  }

  /** After the insertion `q` holds the new list and `p` is otherwise
      unchanged. */
  lemma BetweenInsertFinds(f: seq<Task>, current: Task, p: Task, q: Task, k: nat)
    requires Unique(f) && current in ForestNodes(f)
    requires p in ForestNodes(f) && current.id in Kids(p.subTasks)
    requires q in ForestNodes(f) && k < |q.subTasks| && q.subTasks[k].id !in ForestIds(current.subTasks)
    requires p.id != q.id
    ensures var f1 := EditForest(f, q.id, InsertAt(k, current));
      && Find(f1, p.id) == Some(EditTask(p, q.id, InsertAt(k, current)))
      && Find(f1, q.id) == Some(q.(subTasks := Insert(q.subTasks, k, current)))
  {
    var ins := InsertAt(k, current);
    ParentFacts(f, p, current);
    TargetFacts(f, current, q, k);
    BetweenInsert(f, current, p, q, k);
    EditForestFindTarget(f, q.id, ins, q);
    EditForestFindOther(f, q.id, ins, p.id, p);
  }

  /** The insertion into another list leaves `current` where it was in
      the list of `p`. */
  lemma OldParentAfterInsert(f: seq<Task>, current: Task, p: Task, q: Task, k: nat)
    requires Unique(f) && current in ForestNodes(f)
    requires p in ForestNodes(f) && current.id in Kids(p.subTasks)
    requires q in ForestNodes(f) && k < |q.subTasks| && q.subTasks[k].id !in ForestIds(current.subTasks)
    requires p.id != q.id
    ensures var p1 := EditTask(p, q.id, InsertAt(k, current));
      && Kids(p1.subTasks) == Kids(p.subTasks)
      && p1.subTasks[IndexOf(p1.subTasks, current.id)] == current
  {
    ParentFacts(f, p, current);
    TargetFacts(f, current, q, k);
    EditTaskUnchanged(current, q.id, InsertAt(k, current));
  }

  /** A move between two parents keeps every task of the forest. */
  lemma BetweenIds(f: seq<Task>, current: Task, p: Task, q: Task, k: nat)
    requires Unique(f) && current in ForestNodes(f)
    requires p in ForestNodes(f) && current.id in Kids(p.subTasks)
    requires q in ForestNodes(f) && k < |q.subTasks| && q.subTasks[k].id !in ForestIds(current.subTasks)
    requires p.id != q.id
    ensures var r := EditForest(EditForest(f, q.id, InsertAt(k, current)), p.id, Remove(current.id));
      multiset(ForestIds(r)) == multiset(ForestIds(f)) && Unique(r)
  {
    var f1 := EditForest(f, q.id, InsertAt(k, current));
    var p1 := EditTask(p, q.id, InsertAt(k, current));
    BetweenInsert(f, current, p, q, k);
    BetweenInsertFinds(f, current, p, q, k);
    OldParentAfterInsert(f, current, p, q, k);
    EditForestShrinks(f1, p.id, current.id, p1);
    AddSub(multiset(ForestIds(f)), multiset(Ids(current)));
    UniqueSameIds(f, EditForest(f1, p.id, Remove(current.id)));
  }

  /** After the insertion the old parent is found once, and its subtrees
      do not hold its id. */
  lemma OldParentFound(f: seq<Task>, current: Task, p: Task, q: Task, k: nat)
    requires Unique(f) && current in ForestNodes(f)
    requires p in ForestNodes(f) && current.id in Kids(p.subTasks)
    requires q in ForestNodes(f) && k < |q.subTasks| && q.subTasks[k].id !in ForestIds(current.subTasks)
    requires p.id != q.id
    ensures var f1 := EditForest(f, q.id, InsertAt(k, current));
      var p1 := EditTask(p, q.id, InsertAt(k, current));
      && multiset(ForestIds(f1))[p.id] == 1 && Find(f1, p.id) == Some(p1)
      && p.id !in ForestIds(p1.subTasks)
  {
    var f1 := EditForest(f, q.id, InsertAt(k, current));
    var p1 := EditTask(p, q.id, InsertAt(k, current));
    BetweenInsert(f, current, p, q, k);
    BetweenInsertFinds(f, current, p, q, k);
    OnceNotInOwnSubtasks(f1, p1);
  }

  /** After a move between two parents the old parent no longer lists
      `current`. */
  lemma BetweenOldParent(f: seq<Task>, current: Task, p: Task, q: Task, k: nat)
    requires Unique(f) && current in ForestNodes(f)
    requires p in ForestNodes(f) && current.id in Kids(p.subTasks)
    requires q in ForestNodes(f) && k < |q.subTasks| && q.subTasks[k].id !in ForestIds(current.subTasks)
    requires p.id != q.id
    ensures var r := EditForest(EditForest(f, q.id, InsertAt(k, current)), p.id, Remove(current.id));
      && Find(r, p.id).Some?
      && Kids(Find(r, p.id).value.subTasks) == Without(Kids(p.subTasks), current.id)
  {
    var c := current.id;
    var f1 := EditForest(f, q.id, InsertAt(k, current));
    var p1 := EditTask(p, q.id, InsertAt(k, current));
    OldParentFound(f, current, p, q, k);
    OldParentAfterInsert(f, current, p, q, k);
    RemovedListOmitsParent(p1, c);
    EditForestFindTarget(f1, p.id, Remove(c), p1);
    KidsRemoveFirst(p1.subTasks, c);
  }

  /** After a move between two parents the new parent lists `current`
      just before `after`. */
  lemma BetweenNewParent(f: seq<Task>, current: Task, p: Task, q: Task, k: nat)
    requires Unique(f) && current in ForestNodes(f)
    requires p in ForestNodes(f) && current.id in Kids(p.subTasks)
    requires q in ForestNodes(f) && k < |q.subTasks| && q.subTasks[k].id !in ForestIds(current.subTasks)
    requires p.id != q.id
    ensures var r := EditForest(EditForest(f, q.id, InsertAt(k, current)), p.id, Remove(current.id));
      && Find(r, q.id) == Some(EditTask(q.(subTasks := Insert(q.subTasks, k, current)), p.id, Remove(current.id)))
      && Kids(Find(r, q.id).value.subTasks) == Kids(q.subTasks)[..k] + [current.id] + Kids(q.subTasks)[k..]
  {
    var c := current.id;
    var f1 := EditForest(f, q.id, InsertAt(k, current));
    var q1 := q.(subTasks := Insert(q.subTasks, k, current));
    BetweenInsert(f, current, p, q, k);
    BetweenInsertFinds(f, current, p, q, k);
    BetweenIds(f, current, p, q, k);
    TargetFacts(f, current, q, k);
    EditForestFindOther(f1, p.id, Remove(c), q.id, q1);
    KidsInsert(q.subTasks, k, current);
  }

  /** Moving `current` from the list of `p` into that of `q` changes no
      other list. */
  lemma BetweenKeepsOthers(f: seq<Task>, current: Task, p: Task, q: Task, k: nat)
    requires Unique(f) && current in ForestNodes(f)
    requires p in ForestNodes(f) && current.id in Kids(p.subTasks)
    requires q in ForestNodes(f) && k < |q.subTasks| && q.subTasks[k].id !in ForestIds(current.subTasks)
    requires p.id != q.id
    ensures var r := EditForest(EditForest(f, q.id, InsertAt(k, current)), p.id, Remove(current.id));
      OtherListsKept(f, r, {p.id, q.id})
  {
    var r := EditForest(EditForest(f, q.id, InsertAt(k, current)), p.id, Remove(current.id));
    BetweenIds(f, current, p, q, k);
    BetweenCurrentStays(f, current, p, q, k);
    SubtreeKept(f, r, current);
    forall y | y in ForestIds(f) && y !in {p.id, q.id} && y !in Ids(current)
      ensures Find(r, y).Some? && SameList(Find(r, y).value, Find(f, y).value)
    {
      BetweenOther(f, current, p, q, k, y);
    }
  }

  /** After a move between two parents `current` stands in the forest
      with its subtree as it was. */
  lemma BetweenCurrentStays(f: seq<Task>, current: Task, p: Task, q: Task, k: nat)
    requires Unique(f) && current in ForestNodes(f)
    requires p in ForestNodes(f) && current.id in Kids(p.subTasks)
    requires q in ForestNodes(f) && k < |q.subTasks| && q.subTasks[k].id !in ForestIds(current.subTasks)
    requires p.id != q.id
    ensures current in ForestNodes(EditForest(EditForest(f, q.id, InsertAt(k, current)), p.id, Remove(current.id)))
  {
    var r := EditForest(EditForest(f, q.id, InsertAt(k, current)), p.id, Remove(current.id));
    var q1 := q.(subTasks := Insert(q.subTasks, k, current));
    var q2 := EditTask(q1, p.id, Remove(current.id));
    BetweenNewParent(f, current, p, q, k);
    ParentFacts(f, p, current);
    EditTaskUnchanged(current, p.id, Remove(current.id));
    assert q2.subTasks[k] == current;
    ChildInForest(r, q2, k);
  }

  lemma BetweenOther(f: seq<Task>, current: Task, p: Task, q: Task, k: nat, y: TaskId)
    requires Unique(f) && current in ForestNodes(f)
    requires p in ForestNodes(f) && current.id in Kids(p.subTasks)
    requires q in ForestNodes(f) && k < |q.subTasks| && q.subTasks[k].id !in ForestIds(current.subTasks)
    requires p.id != q.id
    requires y in ForestIds(f) && y != p.id && y != q.id && y !in Ids(current)
    ensures var r := EditForest(EditForest(f, q.id, InsertAt(k, current)), p.id, Remove(current.id));
      Find(r, y).Some? && SameList(Find(r, y).value, Find(f, y).value)
  {
    var ins := InsertAt(k, current);
    var f1 := EditForest(f, q.id, ins);
    var m := Find(f, y).value;
    BetweenInsert(f, current, p, q, k);
    BetweenIds(f, current, p, q, k);
    TargetFacts(f, current, q, k);
    UniqueCount(f, y);
    assert multiset(Ids(current))[y] == 0;
    EditForestFindOther(f, q.id, ins, y, m);
    EditForestFindOther(f1, p.id, Remove(current.id), y, EditTask(m, q.id, ins));
    EditTaskKeepsList(m, q.id, ins);
    EditTaskKeepsList(EditTask(m, q.id, ins), p.id, Remove(current.id));
  }
}
