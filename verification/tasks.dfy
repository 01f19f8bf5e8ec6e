/** The task tree of Models/Task.cs: a task, its check-box status and its
    ordered subtasks. A forest (`seq<Task>`) is the top-level task list.

    C# tasks are objects compared by reference; here every task carries an
    `id` that stands for that identity. A forest in which every id occurs
    once (`Unique`) is one in which every task object occurs once. */
module Tasks {
  import opened Wrappers

  type TaskId = nat

  /** The three states of a task's check box. */
  datatype Status = Done | NotDone | SemiDone

  datatype Task = Task(
    id: TaskId,
    name: Option<string>,
    isDone: Option<bool>,
    isExpanded: bool,
    status: Status,
    subTasks: seq<Task>)

  /** `new Task()`: no name yet, `IsDone` false, no subtasks. The status is
      the zero member of the TaskStatus enum, whose declaration is not part of
      this model, so the caller supplies it. */
  function NewTask(id: TaskId, defaultStatus: Status): (t: Task)
    ensures t.id == id && t.name.None? && !t.isExpanded
    ensures t.isDone == Some(false)
    ensures t.subTasks == []
    ensures Ids(t) == [id]
  {
    Task(id, None, Some(false), false, defaultStatus, [])
  }

  // ---------------------------------------------------------------------
  // Queries over the tree

  /** The ids of a subtree, in pre-order. */
  function Ids(t: Task): seq<TaskId>
    decreases t, 1
  {
    [t.id] + ForestIds(t.subTasks)
  }

  function ForestIds(ts: seq<Task>): seq<TaskId>
    decreases ts, 0
  {
    if ts == [] then [] else Ids(ts[0]) + ForestIds(ts[1..])
  }

  /** The ids of the tasks of one list, without their subtrees. */
  function Kids(ts: seq<Task>): (r: seq<TaskId>)
    ensures |r| == |ts|
    ensures forall i | 0 <= i < |ts| :: r[i] == ts[i].id
  {
    seq(|ts|, i requires 0 <= i < |ts| => ts[i].id)
  }

  /** Every task of a subtree, the root included. */
  function Nodes(t: Task): set<Task>
    decreases t, 1
  {
    {t} + ForestNodes(t.subTasks)
  }

  function ForestNodes(ts: seq<Task>): set<Task>
    decreases ts, 0
  {
    if ts == [] then {} else Nodes(ts[0]) + ForestNodes(ts[1..])
  }

  /** The number of tasks in a subtree. */
  function Size(t: Task): nat
    decreases t, 1
  {
    1 + ForestSize(t.subTasks)
  }

  function ForestSize(ts: seq<Task>): nat
    decreases ts, 0
  {
    if ts == [] then 0 else Size(ts[0]) + ForestSize(ts[1..])
  }

  /** No id occurs twice. */
  predicate NoDup(s: seq<TaskId>) {
    |s| == 0 || (s[0] !in s[1..] && NoDup(s[1..]))
  }

  /** Every task of the forest occurs once. */
  predicate Unique(ts: seq<Task>) {
    NoDup(ForestIds(ts))
  }

  lemma {:induction false} NoDupCount(s: seq<TaskId>, x: TaskId)
    requires NoDup(s)
    ensures multiset(s)[x] <= 1
  {
    if |s| > 0 {
      assert s == [s[0]] + s[1..];
      NoDupCount(s[1..], x);
    }
  }

  lemma {:induction false} CountNoDup(s: seq<TaskId>)
    requires forall x :: multiset(s)[x] <= 1
    ensures NoDup(s)
  {
    if |s| > 0 {
      assert s == [s[0]] + s[1..];
      assert multiset(s)[s[0]] <= 1;
      forall x ensures multiset(s[1..])[x] <= 1 {
        assert multiset(s)[x] <= 1;
      }
      CountNoDup(s[1..]);
    }
  }

  /** In a forest where every task occurs once, every id occurs at most once. */
  lemma UniqueCount(ts: seq<Task>, x: TaskId)
    requires Unique(ts)
    ensures multiset(ForestIds(ts))[x] <= 1
  {
    NoDupCount(ForestIds(ts), x);
  }

  lemma CountUnique(ts: seq<Task>)
    requires forall x :: multiset(ForestIds(ts))[x] <= 1
    ensures Unique(ts)
  {
    CountNoDup(ForestIds(ts));
  }

  /** The two subtrees are equal except, possibly, for their statuses. */
  predicate SameShape(a: Task, b: Task)
    decreases a
  {
    && a.id == b.id && a.name == b.name && a.isDone == b.isDone && a.isExpanded == b.isExpanded
    && |a.subTasks| == |b.subTasks|
    && forall i | 0 <= i < |a.subTasks| :: SameShape(a.subTasks[i], b.subTasks[i])
  }

  lemma {:induction false} SameShapeReflexive(t: Task)
    ensures SameShape(t, t)
    decreases t
  {
    forall i | 0 <= i < |t.subTasks| {
      SameShapeReflexive(t.subTasks[i]);
    }
  }

  lemma {:induction false} SameShapeTransitive(a: Task, b: Task, c: Task)
    requires SameShape(a, b) && SameShape(b, c)
    ensures SameShape(a, c)
    decreases a
  {
    forall i | 0 <= i < |a.subTasks| ensures SameShape(a.subTasks[i], c.subTasks[i]) {
      SameShapeTransitive(a.subTasks[i], b.subTasks[i], c.subTasks[i]);
    }
  }

  /** Every task of a subtree has the given status. */
  predicate AllStatus(t: Task, s: Status)
    decreases t
  {
    t.status == s && forall i | 0 <= i < |t.subTasks| :: AllStatus(t.subTasks[i], s)
  }

  /** The first task with id `x` in a pre-order walk of the subtree. */
  function FindIn(t: Task, x: TaskId): (r: Option<Task>)
    decreases t, 1
    ensures r.Some? <==> x in Ids(t)
    ensures r.Some? ==> r.value.id == x && r.value in Nodes(t)
  {
    if t.id == x then Some(t) else Find(t.subTasks, x)
  }

  /** The first task with id `x` in a pre-order walk of the forest. */
  function Find(ts: seq<Task>, x: TaskId): (r: Option<Task>)
    decreases ts, 0
    ensures r.Some? <==> x in ForestIds(ts)
    ensures r.Some? ==> r.value.id == x && r.value in ForestNodes(ts)
  {
    if ts == [] then None
    else match FindIn(ts[0], x)
      case Some(n) => Some(n)
      case None => Find(ts[1..], x)
  }

  // ---------------------------------------------------------------------
  // Lemmas about the queries

  lemma {:induction false} ForestIdsConcat(a: seq<Task>, b: seq<Task>)
    ensures ForestIds(a + b) == ForestIds(a) + ForestIds(b)
    decreases |a|
  {
    if a == [] {
      assert a + b == b;
    } else {
      assert (a + b)[1..] == a[1..] + b;
      ForestIdsConcat(a[1..], b);
    }
  }

  lemma {:induction false} ForestNodesConcat(a: seq<Task>, b: seq<Task>)
    ensures ForestNodes(a + b) == ForestNodes(a) + ForestNodes(b)
    decreases |a|
  {
    if a == [] {
      assert a + b == b;
    } else {
      assert (a + b)[1..] == a[1..] + b;
      ForestNodesConcat(a[1..], b);
    }
  }

  /** Searching a concatenation searches the first part, then the second. */
  lemma {:induction false} FindConcat(a: seq<Task>, b: seq<Task>, x: TaskId)
    ensures Find(a + b, x) == if x in ForestIds(a) then Find(a, x) else Find(b, x)
    decreases |a|
  {
    if a == [] {
      assert a + b == b;
    } else {
      assert (a + b)[0] == a[0] && (a + b)[1..] == a[1..] + b;
      FindConcat(a[1..], b, x);
    }
  }

  /** A forest's ids split around its i-th tree. */
  lemma ForestIdsSplit(ts: seq<Task>, i: nat)
    requires i < |ts|
    ensures ForestIds(ts) == ForestIds(ts[..i]) + Ids(ts[i]) + ForestIds(ts[i+1..])
  {
    assert ts == ts[..i] + ts[i..];
    ForestIdsConcat(ts[..i], ts[i..]);
    assert ts[i..][0] == ts[i] && ts[i..][1..] == ts[i+1..];
  }

  /** The ids of a node lie in the forest that holds it, with multiplicity. */
  lemma {:induction false} NodeIdsWithin(t: Task, n: Task)
    requires n in Nodes(t)
    ensures multiset(Ids(n)) <= multiset(Ids(t))
    decreases t, 1
  {
    if n != t {
      NodeIdsWithinForest(t.subTasks, n);
    }
  }

  lemma {:induction false} NodeIdsWithinForest(ts: seq<Task>, n: Task)
    requires n in ForestNodes(ts)
    ensures multiset(Ids(n)) <= multiset(ForestIds(ts))
    decreases ts, 0
  {
    if n in Nodes(ts[0]) {
      NodeIdsWithin(ts[0], n);
    } else {
      NodeIdsWithinForest(ts[1..], n);
    }
  }

  /** The id of a child of any node of the forest is an id of the forest
      below the top level. */
  lemma ChildIdWithin(ts: seq<Task>, n: Task, i: nat)
    requires n in ForestNodes(ts) && i < |n.subTasks|
    ensures multiset(Ids(n.subTasks[i])) <= multiset(ForestIds(ts))
    ensures n.subTasks[i].id in ForestIds(ts)
  {
    var c := n.subTasks[i];
    NodeIdsWithinForest(ts, n);
    ForestIdsSplit(n.subTasks, i);
    assert multiset(Ids(c)) <= multiset(ForestIds(n.subTasks));
    assert multiset(ForestIds(n.subTasks)) <= multiset(Ids(n));
    assert Ids(c)[0] == c.id;
    assert multiset(Ids(c))[c.id] >= 1;
  }

  lemma {:induction false} NodeSizeWithin(t: Task, n: Task)
    requires n in Nodes(t)
    ensures Size(n) <= Size(t)
    decreases t, 1
  {
    if n != t {
      NodeSizeWithinForest(t.subTasks, n);
    }
  }

  lemma {:induction false} NodeSizeWithinForest(ts: seq<Task>, n: Task)
    requires n in ForestNodes(ts)
    ensures Size(n) <= ForestSize(ts)
    decreases ts, 0
  {
    if n in Nodes(ts[0]) {
      NodeSizeWithin(ts[0], n);
    } else {
      NodeSizeWithinForest(ts[1..], n);
    }
  }

  /** No task lies strictly below itself. */
  lemma NotBelowItself(t: Task)
    ensures t !in ForestNodes(t.subTasks)
  {
    if t in ForestNodes(t.subTasks) {
      NodeSizeWithinForest(t.subTasks, t);
      assert false;
    }
  }

  /** Each task of a list is a task of the forest it heads. */
  lemma {:induction false} ListInForestNodes(ts: seq<Task>, k: nat)
    requires k < |ts|
    ensures ts[k] in ForestNodes(ts)
    decreases k
  {
    if k > 0 {
      assert ts[1..][k - 1] == ts[k];
      ListInForestNodes(ts[1..], k - 1);
    }
  }

  /** The subtree of a task of the forest lies in the forest. */
  lemma {:induction false} NodesWithin(t: Task, p: Task)
    requires p in Nodes(t)
    ensures Nodes(p) <= Nodes(t)
    decreases t, 1
  {
    if p != t {
      NodesWithinForest(t.subTasks, p);
    }
  }

  lemma {:induction false} NodesWithinForest(ts: seq<Task>, p: Task)
    requires p in ForestNodes(ts)
    ensures Nodes(p) <= ForestNodes(ts)
    decreases ts, 0
  {
    if p in Nodes(ts[0]) {
      NodesWithin(ts[0], p);
    } else {
      NodesWithinForest(ts[1..], p);
    }
  }

  /** A subtask of a task of the forest is a task of the forest. */
  lemma ChildInForest(ts: seq<Task>, p: Task, k: nat)
    requires p in ForestNodes(ts) && k < |p.subTasks|
    ensures p.subTasks[k] in ForestNodes(ts)
  {
    ListInForestNodes(p.subTasks, k);
    NodesWithinForest(ts, p);
  }

  /** In a forest where every task occurs once, a task of the forest is what
      the search for its id finds. */
  lemma {:induction false} UniqueNodeIn(t: Task, n: Task)
    requires multiset(Ids(t))[n.id] <= 1
    requires n in Nodes(t)
    ensures FindIn(t, n.id) == Some(n)
    decreases t, 1
  {
    if n != t {
      NodeIdsWithinForest(t.subTasks, n);
      UniqueNodeForest(t.subTasks, n);
    }
  }

  lemma {:induction false} UniqueNodeForest(ts: seq<Task>, n: Task)
    requires multiset(ForestIds(ts))[n.id] <= 1
    requires n in ForestNodes(ts)
    ensures Find(ts, n.id) == Some(n)
    decreases ts, 0
  {
    if n in Nodes(ts[0]) {
      NodeIdsWithin(ts[0], n);
      UniqueNodeIn(ts[0], n);
    } else {
      NodeIdsWithinForest(ts[1..], n);
      UniqueNodeForest(ts[1..], n);
    }
  }

  lemma UniqueNode(ts: seq<Task>, n: Task)
    requires Unique(ts) && n in ForestNodes(ts)
    ensures Find(ts, n.id) == Some(n)
  {
    UniqueCount(ts, n.id);
    UniqueNodeForest(ts, n);
  }

  /** Below a subtree where every node has status `s`, every node found has
      status `s` throughout. */
  lemma {:induction false} AllStatusFindIn(t: Task, x: TaskId, s: Status)
    requires AllStatus(t, s) && FindIn(t, x).Some?
    ensures AllStatus(FindIn(t, x).value, s)
    decreases t, 1
  {
    if t.id != x {
      AllStatusFind(t.subTasks, x, s);
    }
  }

  lemma {:induction false} AllStatusFind(ts: seq<Task>, x: TaskId, s: Status)
    requires forall i | 0 <= i < |ts| :: AllStatus(ts[i], s)
    requires Find(ts, x).Some?
    ensures AllStatus(Find(ts, x).value, s)
    decreases ts, 0
  {
    if FindIn(ts[0], x).Some? {
      AllStatusFindIn(ts[0], x, s);
    } else {
      AllStatusFind(ts[1..], x, s);
    }
  }

  /** The tasks of a list are tasks of the forest. */
  lemma KidsWithin(ts: seq<Task>)
    ensures forall x | x in Kids(ts) :: x in ForestIds(ts)
  {
    forall i | 0 <= i < |ts| ensures ts[i].id in ForestIds(ts) {
      ForestIdsSplit(ts, i);
      assert Ids(ts[i])[0] == ts[i].id;
    }
  }

  /** The id of a subtask of any node of a subtree lies strictly below the
      subtree's root. */
  lemma ChildStrictlyBelow(t: Task, q: Task, j: nat)
    requires q in Nodes(t) && j < |q.subTasks|
    ensures q.subTasks[j].id in ForestIds(t.subTasks)
  {
    if q == t {
      KidsWithin(t.subTasks);
      assert q.subTasks[j].id in Kids(t.subTasks);
    } else {
      ChildIdWithin(t.subTasks, q, j);
    }
  }

  /** In a forest where every task occurs once, no task occurs below itself. */
  lemma NotInOwnSubtasks(ts: seq<Task>, p: Task)
    requires Unique(ts) && p in ForestNodes(ts)
    ensures p.id !in ForestIds(p.subTasks)
    ensures forall j | 0 <= j < |p.subTasks| :: p.id !in Ids(p.subTasks[j])
  {
    UniqueCount(ts, p.id);
    OnceNotInOwnSubtasks(ts, p);
  }

  /** A task whose id occurs once in the forest does not occur below itself. */
  lemma OnceNotInOwnSubtasks(ts: seq<Task>, p: Task)
    requires multiset(ForestIds(ts))[p.id] <= 1 && p in ForestNodes(ts)
    ensures p.id !in ForestIds(p.subTasks)
    ensures forall j | 0 <= j < |p.subTasks| :: p.id !in Ids(p.subTasks[j])
  {
    NodeIdsWithinForest(ts, p);
    assert multiset(Ids(p)) == multiset{p.id} + multiset(ForestIds(p.subTasks));
    assert multiset(Ids(p))[p.id] == 1 + multiset(ForestIds(p.subTasks))[p.id];
    forall j | 0 <= j < |p.subTasks| ensures p.id !in Ids(p.subTasks[j]) {
      ForestIdsSplit(p.subTasks, j);
    }
  }

  /** In a forest where every task occurs once, the top-level tasks have
      distinct ids. */
  lemma TopLevelDistinct(ts: seq<Task>, j: nat, k: nat)
    requires Unique(ts) && j < k < |ts|
    ensures ts[j].id != ts[k].id
  {
    ForestIdsSplit(ts, k);
    KidsWithin(ts[..k]);
    assert ts[..k][j] == ts[j];
    assert ts[j].id in Kids(ts[..k]);
    assert Ids(ts[k])[0] == ts[k].id;
    UniqueCount(ts, ts[k].id);
  }
}
