/** The parent search of BL/Helpers/TaskHelper.cs: a recursive, first-match,
    depth-first walk over the forest for the task whose `SubTasks` contain a
    given task. `Contains` compares references, modelled by ids; null is None. */
module TaskHelper {
  import opened Wrappers
  import opened Tasks

  /** Some task of the forest has `x` among its direct subtasks. */
  ghost predicate HasParentIn(ts: seq<Task>, x: TaskId) {
    exists n :: n in ForestNodes(ts) && x in Kids(n.subTasks)
  }

  /** The tasks strictly below the tasks of a list. */
  function Below(ts: seq<Task>): set<Task> {
    if ts == [] then {} else ForestNodes(ts[0].subTasks) + Below(ts[1..])
  }

  lemma {:induction false} NodesAreListOrBelow(ts: seq<Task>)
    ensures ForestNodes(ts) == (set n | n in ts) + Below(ts)
  {
    if ts != [] {
      NodesAreListOrBelow(ts[1..]);
      assert (set n | n in ts) == {ts[0]} + set n | n in ts[1..] by {
        assert ts == [ts[0]] + ts[1..];
      }
    }
  }

  /** `taskList.FirstOrDefault(x => x.SubTasks.Contains(target))`. */
  function FirstWithChild(ts: seq<Task>, x: TaskId): (r: Option<Task>)
    ensures r.Some? <==> exists i | 0 <= i < |ts| :: x in Kids(ts[i].subTasks)
    ensures r.Some? ==> exists i | 0 <= i < |ts| :: && r.value == ts[i]
                                                  && x in Kids(ts[i].subTasks)
                                                  && forall j | 0 <= j < i :: x !in Kids(ts[j].subTasks)
  {
    if ts == [] then None
    else if x in Kids(ts[0].subTasks) then Some(ts[0])
    else
      var r := FirstWithChild(ts[1..], x);
      assert forall i | 1 <= i < |ts| :: ts[i] == ts[1..][i - 1];
      r
  }

  /** `FindParentTask(taskList, target)`: a top-level task that directly holds
      the target, else the first hit of a search below each top-level task. */
  function FindParentTask(ts: seq<Task>, x: TaskId): (r: Option<Task>)
    ensures r.Some? ==> r.value in ForestNodes(ts) && x in Kids(r.value.subTasks)
    ensures r.Some? <==> HasParentIn(ts, x)
  {
    NodesAreListOrBelow(ts);
    match FirstWithChild(ts, x)
    case Some(p) => Some(p)
    case None => FindInEach(ts, x)
  }

  /** `FindParentTaskInChild(child, target)`: the same search, one level down. */
  function FindParentTaskInChild(child: Task, x: TaskId): (r: Option<Task>)
    decreases child, 1
    ensures r.Some? ==> r.value in ForestNodes(child.subTasks) && x in Kids(r.value.subTasks)
    ensures r.Some? <==> HasParentIn(child.subTasks, x)
  {
    NodesAreListOrBelow(child.subTasks);
    match FirstWithChild(child.subTasks, x)
    case Some(p) => Some(p)
    case None => FindInEach(child.subTasks, x)
  }

  /** The `foreach` loop: the first task of the list below which
      `FindParentTaskInChild` succeeds. */
  function FindInEach(cs: seq<Task>, x: TaskId): (r: Option<Task>)
    decreases cs, 0
    ensures r.Some? ==> r.value in Below(cs) && x in Kids(r.value.subTasks)
    ensures r.Some? <==> exists n :: n in Below(cs) && x in Kids(n.subTasks)
  {
    if cs == [] then None
    else match FindParentTaskInChild(cs[0], x)
      case Some(p) => Some(p)
      case None => FindInEach(cs[1..], x)
  }

  /** A top-level task that directly holds the target wins, and the first
      such task in list order. */
  lemma FindParentTaskPrefersTopLevel(ts: seq<Task>, x: TaskId, i: nat)
    requires i < |ts| && x in Kids(ts[i].subTasks)
    requires forall j | 0 <= j < i :: x !in Kids(ts[j].subTasks)
    ensures FindParentTask(ts, x) == Some(ts[i])
  {
    var k :| 0 <= k < |ts| && FirstWithChild(ts, x).value == ts[k] && x in Kids(ts[k].subTasks)
             && forall j | 0 <= j < k :: x !in Kids(ts[j].subTasks);
    assert k == i;
  }

  /** Otherwise the subtrees are searched in list order, and the first one
      below which the search succeeds gives the answer. */
  lemma FindParentTaskSearchesInOrder(ts: seq<Task>, x: TaskId, i: nat)
    requires forall j | 0 <= j < |ts| :: x !in Kids(ts[j].subTasks)
    requires i < |ts| && FindParentTaskInChild(ts[i], x).Some?
    requires forall j | 0 <= j < i :: FindParentTaskInChild(ts[j], x).None?
    ensures FindParentTask(ts, x) == FindParentTaskInChild(ts[i], x)
  {
    FindInEachFirstHit(ts, x, i);
  }

  lemma {:induction false} FindInEachFirstHit(cs: seq<Task>, x: TaskId, i: nat)
    requires i < |cs| && FindParentTaskInChild(cs[i], x).Some?
    requires forall j | 0 <= j < i :: FindParentTaskInChild(cs[j], x).None?
    ensures FindInEach(cs, x) == FindParentTaskInChild(cs[i], x)
    decreases i
  {
    if i > 0 {
      assert cs[1..][i - 1] == cs[i];
      assert forall j | 0 <= j < i - 1 :: cs[1..][j] == cs[j + 1];
      FindInEachFirstHit(cs[1..], x, i - 1);
    }
  }

  /** `FindParentTaskInChild` answers with a task strictly below `child`. */
  lemma FindParentTaskInChildIsStrict(child: Task, x: TaskId)
    requires FindParentTaskInChild(child, x).Some?
    ensures FindParentTaskInChild(child, x).value != child
  {
    NotBelowItself(child);
  }

  /** A task absent from the forest has no parent there. */
  lemma FindParentTaskOfAbsent(ts: seq<Task>, x: TaskId)
    requires x !in ForestIds(ts)
    ensures FindParentTask(ts, x).None?
  {
    var r := FindParentTask(ts, x);
    if r.Some? {
      var k :| 0 <= k < |r.value.subTasks| && r.value.subTasks[k].id == x;
      ChildIdWithin(ts, r.value, k);
      assert false;
    }
  }

  /** The ids strictly below the tasks of a list. */
  function BelowIds(ts: seq<Task>): seq<TaskId> {
    if ts == [] then [] else ForestIds(ts[0].subTasks) + BelowIds(ts[1..])
  }

  lemma {:induction false} IdsAreListOrBelow(ts: seq<Task>)
    ensures multiset(ForestIds(ts)) == multiset(Kids(ts)) + multiset(BelowIds(ts))
  {
    if ts != [] {
      IdsAreListOrBelow(ts[1..]);
      var id, a := multiset{ts[0].id}, multiset(ForestIds(ts[0].subTasks));
      var k, b := multiset(Kids(ts[1..])), multiset(BelowIds(ts[1..]));
      assert Kids(ts) == [ts[0].id] + Kids(ts[1..]);
      assert multiset(ForestIds(ts)) == id + a + (k + b);
      assert multiset(Kids(ts)) + multiset(BelowIds(ts)) == id + k + (a + b);
    }
  }

  lemma TopLevelCount(ts: seq<Task>, i: nat)
    requires i < |ts|
    ensures multiset(ForestIds(ts))[ts[i].id] >= 1 + multiset(BelowIds(ts))[ts[i].id]
  {
    IdsAreListOrBelow(ts);
    assert Kids(ts)[i] == ts[i].id;
    assert multiset(Kids(ts))[ts[i].id] >= 1;
  }

  /** The subtree of a subtask of any task of the forest lies below the top
      level. */
  lemma {:induction false} ChildIdsBelow(ts: seq<Task>, p: Task, k: nat)
    requires p in ForestNodes(ts) && k < |p.subTasks|
    ensures multiset(Ids(p.subTasks[k])) <= multiset(BelowIds(ts))
    ensures multiset(BelowIds(ts))[p.subTasks[k].id] >= 1
  {
    var c := p.subTasks[k];
    assert BelowIds(ts) == ForestIds(ts[0].subTasks) + BelowIds(ts[1..]);
    if p in Nodes(ts[0]) {
      if p == ts[0] {
        ForestIdsSplit(p.subTasks, k);
        assert multiset(Ids(c)) <= multiset(ForestIds(ts[0].subTasks));
      } else {
        ChildIdWithin(ts[0].subTasks, p, k);
      }
    } else {
      ChildIdsBelow(ts[1..], p, k);
    }
    assert Ids(c)[0] == c.id;
    assert multiset(Ids(c))[c.id] >= 1;
  }

  /** In a forest where every task occurs once, a top-level task has no
      parent. */
  lemma FindParentTaskOfTopLevel(ts: seq<Task>, i: nat)
    requires Unique(ts) && i < |ts|
    ensures FindParentTask(ts, ts[i].id).None?
  {
    var x := ts[i].id;
    var r := FindParentTask(ts, x);
    if r.Some? {
      var p := r.value;
      var k :| 0 <= k < |p.subTasks| && p.subTasks[k].id == x;
      ChildIdsBelow(ts, p, k);
      TopLevelCount(ts, i);
      UniqueCount(ts, x);
      assert false;
    }
  }

  /** A task of the forest heads the top-level list or has a parent in it. */
  lemma {:induction false} InListOrHasParent(cs: seq<Task>, n: Task)
    requires n in ForestNodes(cs)
    ensures n in cs || HasParentIn(cs, n.id)
    decreases cs
  {
    assert cs != [];
    assert ForestNodes(cs) == Nodes(cs[0]) + ForestNodes(cs[1..]);
    ListInForestNodes(cs, 0);
    if n in Nodes(cs[0]) {
      if n != cs[0] {
        var c := cs[0];
        InListOrHasParent(c.subTasks, n);
        if n in c.subTasks {
          var j :| 0 <= j < |c.subTasks| && c.subTasks[j] == n;
          assert n.id in Kids(c.subTasks);
        } else {
          var m :| m in ForestNodes(c.subTasks) && n.id in Kids(m.subTasks);
          assert m in ForestNodes(cs);
        }
      }
    } else {
      InListOrHasParent(cs[1..], n);
      if n in cs[1..] {
        assert n in cs;
      } else {
        var m :| m in ForestNodes(cs[1..]) && n.id in Kids(m.subTasks);
        assert m in ForestNodes(cs);
      }
    }
  }
}
