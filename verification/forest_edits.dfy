/** Changes to the `SubTasks` collection of one task object, seen from the
    forest that holds it.

    Mutating the collection of object `p` is visible wherever `p` occurs, so
    `EditForest(ts, p.id, e)` applies `e` to the current subtasks of every
    task with that id. In a forest where every task occurs once that is one
    task, and the lemmas below say what then changes and what does not. */
module ForestEdits {
  import opened Wrappers
  import opened Tasks

  /** One call on an `ObservableCollection<ITask>`. */
  datatype Edit =
    | Append(task: Task)              // Add(task)
    | InsertAt(index: nat, task: Task) // Insert(index, task)
    | Remove(id: TaskId)              // Remove(task)
    | ReplaceAll(items: seq<Task>)    // an in-place rearrangement with the given outcome

  /** `IndexOf` on the ids of a list: the first position of `x`, or -1. */
  function IndexOfId(ks: seq<TaskId>, x: TaskId): (k: int)
    ensures -1 <= k < |ks|
    ensures k == -1 <==> x !in ks
    ensures 0 <= k ==> ks[k] == x && forall j | 0 <= j < k :: ks[j] != x
  {
    if ks == [] then -1
    else if ks[0] == x then 0
    else
      var k := IndexOfId(ks[1..], x);
      assert forall j | 1 <= j < |ks| :: ks[j] == ks[1..][j - 1];
      if k == -1 then -1 else k + 1
  }

  /** `IndexOf(task)` on a list of tasks, by reference. */
  function IndexOf(ts: seq<Task>, x: TaskId): int {
    IndexOfId(Kids(ts), x)
  }

  /** `Insert(k, t)`. An index past the end makes the collection throw
      before it changes anything, so the list stays as it was. */
  function Insert(ts: seq<Task>, k: nat, t: Task): (r: seq<Task>)
    ensures k <= |ts| ==> |r| == |ts| + 1 && r[k] == t && r[..k] == ts[..k] && r[k+1..] == ts[k..]
    ensures k > |ts| ==> r == ts
  {
    if k <= |ts| then ts[..k] + [t] + ts[k..] else ts
  }

  /** `Remove(task)`: drops the first occurrence, if any. */
  function RemoveFirst(ts: seq<Task>, x: TaskId): (r: seq<Task>)
    ensures x !in Kids(ts) ==> r == ts
    ensures x in Kids(ts) ==> var k := IndexOf(ts, x); r == ts[..k] + ts[k+1..]
  {
    var k := IndexOf(ts, x);
    if k < 0 then ts else ts[..k] + ts[k+1..]
  }

  /** The ids after `Insert`. */
  lemma KidsInsert(ts: seq<Task>, k: nat, t: Task)
    requires k <= |ts|
    ensures Kids(Insert(ts, k, t)) == Kids(ts)[..k] + [t.id] + Kids(ts)[k..]
  {
    var r := Insert(ts, k, t);
    assert forall j | 0 <= j < |r| :: r[j] == if j < k then ts[j] else if j == k then t else ts[j - 1];
  }

  /** The ids left by `Remove`. */
  lemma KidsRemoveFirst(ts: seq<Task>, x: TaskId)
    requires x in Kids(ts)
    ensures var k := IndexOf(ts, x); Kids(RemoveFirst(ts, x)) == Kids(ts)[..k] + Kids(ts)[k+1..]
  {
    var k := IndexOf(ts, x);
    var r := RemoveFirst(ts, x);
    assert forall j | 0 <= j < |r| :: r[j] == if j < k then ts[j] else ts[j + 1];
  }

  function ApplyEdit(cs: seq<Task>, e: Edit): seq<Task> {
    match e
    case Append(t) => cs + [t]
    case InsertAt(k, t) => Insert(cs, k, t)
    case Remove(x) => RemoveFirst(cs, x)
    case ReplaceAll(items) => items
  }

  /** `a` and `b` are the same task with the same status and the same
      subtasks in the same order, by id; the subtasks' own subtrees may
      differ. */
  predicate SameList(a: Task, b: Task) {
    a.id == b.id && a.status == b.status && Kids(a.subTasks) == Kids(b.subTasks)
  }

  /** The subtree `t` after the collection of task `pid` undergoes `e`. */
  function EditTask(t: Task, pid: TaskId, e: Edit): (r: Task)
    decreases t, 1
    ensures r == t.(subTasks := r.subTasks)
  {
    if t.id == pid then t.(subTasks := ApplyEdit(t.subTasks, e))
    else t.(subTasks := EditForest(t.subTasks, pid, e))
  }

  /** An edit of another task's list leaves the list of `t` as it was. */
  lemma EditTaskKeepsList(t: Task, pid: TaskId, e: Edit)
    requires t.id != pid
    ensures SameList(EditTask(t, pid, e), t)
  {
    assert EditTask(t, pid, e).subTasks == EditForest(t.subTasks, pid, e);
  }

  function EditForest(ts: seq<Task>, pid: TaskId, e: Edit): (r: seq<Task>)
    decreases ts, 0
    ensures |r| == |ts| && Kids(r) == Kids(ts)
    ensures forall i | 0 <= i < |ts| :: r[i] == EditTask(ts[i], pid, e)
  {
    if ts == [] then []
    else
      var rest := EditForest(ts[1..], pid, e);
      var r := [EditTask(ts[0], pid, e)] + rest;
      assert forall i | 1 <= i < |ts| :: r[i] == rest[i - 1] && ts[i] == ts[1..][i - 1];
      r
  }

  // ---------------------------------------------------------------------
  // What an edit changes

  /** A subtree without task `pid` is left alone. */
  lemma {:induction false} EditTaskUnchanged(t: Task, pid: TaskId, e: Edit)
    requires pid !in Ids(t)
    ensures EditTask(t, pid, e) == t
    decreases t, 1
  {
    EditForestUnchanged(t.subTasks, pid, e);
  }

  lemma {:induction false} EditForestUnchanged(ts: seq<Task>, pid: TaskId, e: Edit)
    requires pid !in ForestIds(ts)
    ensures EditForest(ts, pid, e) == ts
    decreases ts, 0
  {
    if ts != [] {
      EditTaskUnchanged(ts[0], pid, e);
      EditForestUnchanged(ts[1..], pid, e);
      assert EditForest(ts, pid, e) == [ts[0]] + ts[1..];
    }
  }

  /** Replacing part of one multiset replaces it in a sum. */
  lemma SwapOut<T>(a: multiset<T>, b: multiset<T>, gone: multiset<T>, added: multiset<T>)
    requires gone <= a
    ensures gone <= a + b && gone <= b + a
    ensures (a - gone + added) + b == (a + b) - gone + added
    ensures b + (a - gone + added) == (b + a) - gone + added
  {
    assert forall x :: ((a - gone + added) + b)[x] == ((a + b) - gone + added)[x];
    assert forall x :: (b + (a - gone + added))[x] == ((b + a) - gone + added)[x];
  }

  /** With task `pid` occurring once, the forest's ids change exactly as the
      ids of that task's subtasks do. */
  lemma {:induction false} EditTaskCount(t: Task, pid: TaskId, e: Edit, n: Task)
    requires multiset(Ids(t))[pid] == 1 && FindIn(t, pid) == Some(n)
    ensures multiset(ForestIds(n.subTasks)) <= multiset(Ids(t))
    ensures multiset(Ids(EditTask(t, pid, e)))
         == multiset(Ids(t)) - multiset(ForestIds(n.subTasks)) + multiset(ForestIds(ApplyEdit(n.subTasks, e)))
    decreases t, 1
  {
    if t.id != pid {
      EditForestCount(t.subTasks, pid, e, n);
    }
  }

  lemma {:induction false} EditForestCount(ts: seq<Task>, pid: TaskId, e: Edit, n: Task)
    requires multiset(ForestIds(ts))[pid] == 1 && Find(ts, pid) == Some(n)
    ensures multiset(ForestIds(n.subTasks)) <= multiset(ForestIds(ts))
    ensures multiset(ForestIds(EditForest(ts, pid, e)))
         == multiset(ForestIds(ts)) - multiset(ForestIds(n.subTasks)) + multiset(ForestIds(ApplyEdit(n.subTasks, e)))
    decreases ts, 0
  {
    assert ts != [];
    var r := EditForest(ts, pid, e);
    assert r[1..] == EditForest(ts[1..], pid, e);
    assert ForestIds(r) == Ids(r[0]) + ForestIds(r[1..]);
    var head, rest := multiset(Ids(ts[0])), multiset(ForestIds(ts[1..]));
    var gone, added := multiset(ForestIds(n.subTasks)), multiset(ForestIds(ApplyEdit(n.subTasks, e)));
    assert multiset(ForestIds(ts)) == head + rest;
    if pid in Ids(ts[0]) {
      assert head[pid] >= 1;
      assert rest[pid] == 0;
      assert Find(ts, pid) == FindIn(ts[0], pid);
      EditTaskCount(ts[0], pid, e, n);
      EditForestUnchanged(ts[1..], pid, e);
      assert multiset(Ids(r[0])) == head - gone + added;
      SwapOut(head, rest, gone, added);
    } else {
      assert rest[pid] == 1;
      EditTaskUnchanged(ts[0], pid, e);
      EditForestCount(ts[1..], pid, e, n);
      assert multiset(ForestIds(r[1..])) == rest - gone + added;
      SwapOut(rest, head, gone, added);
    }
  }

  /** With task `pid` occurring once, searching the edited forest for it
      finds it with the edit applied. */
  lemma {:induction false} EditTaskFindTarget(t: Task, pid: TaskId, e: Edit, n: Task)
    requires multiset(Ids(t))[pid] == 1 && FindIn(t, pid) == Some(n)
    requires pid !in ForestIds(ApplyEdit(n.subTasks, e))
    ensures FindIn(EditTask(t, pid, e), pid) == Some(n.(subTasks := ApplyEdit(n.subTasks, e)))
    decreases t, 1
  {
    if t.id != pid {
      EditForestFindTarget(t.subTasks, pid, e, n);
    }
  }

  lemma {:induction false} EditForestFindTarget(ts: seq<Task>, pid: TaskId, e: Edit, n: Task)
    requires multiset(ForestIds(ts))[pid] == 1 && Find(ts, pid) == Some(n)
    requires pid !in ForestIds(ApplyEdit(n.subTasks, e))
    ensures Find(EditForest(ts, pid, e), pid) == Some(n.(subTasks := ApplyEdit(n.subTasks, e)))
    decreases ts, 0
  {
    var r := EditForest(ts, pid, e);
    assert r[1..] == EditForest(ts[1..], pid, e);
    if pid in Ids(ts[0]) {
      EditTaskFindTarget(ts[0], pid, e, n);
    } else {
      EditTaskUnchanged(ts[0], pid, e);
      EditForestFindTarget(ts[1..], pid, e, n);
    }
  }

  // ---------------------------------------------------------------------
  // The edits on one list

  lemma SingletonIds(t: Task)
    ensures ForestIds([t]) == Ids(t)
  {
    assert [t][1..] == [];
  }

  /** Removing a tree from the middle of a list does not change where any
      id outside that tree is found. */
  lemma FindSkip(a: seq<Task>, t: Task, b: seq<Task>, x: TaskId)
    requires x !in Ids(t)
    ensures Find(a + [t] + b, x) == Find(a + b, x)
  {
    SingletonIds(t);
    FindConcat(a + [t], b, x);
    FindConcat(a, [t], x);
    FindConcat(a, b, x);
    ForestIdsConcat(a, [t]);
  }

  lemma AppendIds(cs: seq<Task>, t: Task)
    ensures multiset(ForestIds(cs + [t])) == multiset(ForestIds(cs)) + multiset(Ids(t))
  {
    ForestIdsConcat(cs, [t]);
    SingletonIds(t);
  }

  lemma InsertIds(cs: seq<Task>, k: nat, t: Task)
    requires k <= |cs|
    ensures multiset(ForestIds(Insert(cs, k, t))) == multiset(ForestIds(cs)) + multiset(Ids(t))
  {
    assert cs == cs[..k] + cs[k..];
    ForestIdsConcat(cs[..k] + [t], cs[k..]);
    ForestIdsConcat(cs[..k], [t]);
    ForestIdsConcat(cs[..k], cs[k..]);
    SingletonIds(t);
  }

  /** An id in neither the list nor the inserted tree is not in the result. */
  lemma NotInAfterInsert(cs: seq<Task>, k: nat, t: Task, x: TaskId)
    requires k <= |cs| && x !in ForestIds(cs) && x !in Ids(t)
    ensures x !in ForestIds(Insert(cs, k, t))
  {
    InsertIds(cs, k, t);
    assert multiset(ForestIds(Insert(cs, k, t)))[x] == 0;
  }

  /** `Remove` takes away exactly the ids of the removed tree. */
  lemma RemoveIds(cs: seq<Task>, x: TaskId)
    requires x in Kids(cs)
    ensures var k := IndexOf(cs, x);
      multiset(Ids(cs[k])) <= multiset(ForestIds(cs)) &&
      multiset(ForestIds(RemoveFirst(cs, x))) == multiset(ForestIds(cs)) - multiset(Ids(cs[k]))
  {
    var k := IndexOf(cs, x);
    assert RemoveFirst(cs, x) == cs[..k] + cs[k+1..];
    RemoveAtIds(cs, k);
  }

  /** Dropping the tree at `k` from a list takes away exactly its ids. */
  lemma RemoveAtIds(cs: seq<Task>, k: nat)
    requires k < |cs|
    ensures multiset(Ids(cs[k])) <= multiset(ForestIds(cs))
    ensures multiset(ForestIds(cs[..k] + cs[k+1..])) == multiset(ForestIds(cs)) - multiset(Ids(cs[k]))
  {
    var a, b, c := ForestIds(cs[..k]), Ids(cs[k]), ForestIds(cs[k+1..]);
    ForestIdsSplit(cs, k);
    ForestIdsConcat(cs[..k], cs[k+1..]);
    assert multiset(ForestIds(cs)) == multiset(a) + multiset(b) + multiset(c);
    assert multiset(ForestIds(cs[..k] + cs[k+1..])) == multiset(a) + multiset(c);
    SubtractMiddle(multiset(a), multiset(b), multiset(c));
  }

  lemma SubtractMiddle<T>(a: multiset<T>, b: multiset<T>, c: multiset<T>)
    ensures b <= a + b + c && (a + b + c) - b == a + c
  {
    assert forall x :: ((a + b + c) - b)[x] == (a + c)[x];
  }

  /** A list edit that keeps every other tree, or only rearranges the
      trees, keeps the first match of any id that occurs once before and
      once after. */
  lemma FindApply(cs: seq<Task>, e: Edit, x: TaskId)
    requires e.ReplaceAll? ==> multiset(e.items) == multiset(cs)
    requires multiset(ForestIds(cs))[x] == 1
    requires multiset(ForestIds(ApplyEdit(cs, e)))[x] == 1
    ensures Find(ApplyEdit(cs, e), x) == Find(cs, x)
  {
    match e
    case Append(t) =>
      FindConcat(cs, [t], x);
    case InsertAt(k, t) =>
      if k <= |cs| {
        FindAfterInsert(cs, k, t, x);
      }
    case Remove(y) =>
      if y in Kids(cs) {
        FindAfterRemove(cs, y, x);
      }
    case ReplaceAll(items) =>
      FindPermuted(items, cs, x);
  }

  /** Rearranging a list does not change what the search for an id that
      occurs once in it finds. */
  lemma {:induction false} FindPermuted(a: seq<Task>, b: seq<Task>, x: TaskId)
    requires multiset(a) == multiset(b) && multiset(ForestIds(b))[x] == 1
    ensures Find(a, x) == Find(b, x)
    decreases |a|
  {
    if a == [] {
      assert |b| == |multiset(b)| == 0;
    } else {
      var i := TakeOut(a, b);
      if x in Ids(a[0]) {
        FindAtOnly(b, i, x);
      } else {
        RemoveAtIds(b, i);
        FindSkipAt(b, i, x);
        FindPermuted(a[1..], b[..i] + b[i+1..], x);
      }
    }
  }

  /** The first tree of `a` stands somewhere in a rearrangement `b` of it,
      and the rest of `a` rearranges what is left of `b`. */
  lemma TakeOut(a: seq<Task>, b: seq<Task>) returns (i: nat)
    requires multiset(a) == multiset(b) && a != []
    ensures i < |b| && b[i] == a[0]
    ensures multiset(a[1..]) == multiset(b[..i] + b[i+1..])
  {
    assert a[0] in multiset(b);
    i :| 0 <= i < |b| && b[i] == a[0];
    assert b == b[..i] + [b[i]] + b[i+1..];
    assert a == [a[0]] + a[1..];
    assert multiset(b) == multiset(b[..i]) + multiset{b[i]} + multiset(b[i+1..]);
    assert multiset(a) == multiset{a[0]} + multiset(a[1..]);
    Cancel(a[0], multiset(a[1..]), multiset(b[..i]), multiset(b[i+1..]));
  }

  /** An id that occurs once in a list is found in the tree that holds it. */
  lemma FindAtOnly(b: seq<Task>, i: nat, x: TaskId)
    requires i < |b| && x in Ids(b[i]) && multiset(ForestIds(b))[x] == 1
    ensures Find(b, x) == FindIn(b[i], x)
  {
    ForestIdsSplit(b, i);
    assert multiset(ForestIds(b[..i]))[x] == 0;
    assert b[..i] + b[i..] == b;
    FindConcat(b[..i], b[i..], x);
    assert b[i..][0] == b[i];
  }

  lemma FindAfterInsert(cs: seq<Task>, k: nat, t: Task, x: TaskId)
    requires k <= |cs|
    requires multiset(ForestIds(cs))[x] == 1
    requires multiset(ForestIds(Insert(cs, k, t)))[x] == 1
    ensures Find(Insert(cs, k, t), x) == Find(cs, x)
  {
    InsertIds(cs, k, t);
    assert multiset(Ids(t))[x] == 0;
    assert cs[..k] + cs[k..] == cs;
    FindSkip(cs[..k], t, cs[k..], x);
  }

  lemma FindAfterRemove(cs: seq<Task>, y: TaskId, x: TaskId)
    requires y in Kids(cs)
    requires multiset(ForestIds(cs))[x] == 1
    requires multiset(ForestIds(RemoveFirst(cs, y)))[x] == 1
    ensures Find(RemoveFirst(cs, y), x) == Find(cs, x)
  {
    var k := IndexOf(cs, y);
    assert RemoveFirst(cs, y) == cs[..k] + cs[k+1..];
    RemovedKeepsOthers(cs, y, x);
    FindSkipAt(cs, k, x);
  }

  /** Removing a tree that does not hold `x` keeps what the search for
      `x` finds. */
  lemma FindAfterRemoveOther(cs: seq<Task>, y: TaskId, x: TaskId)
    requires y in Kids(cs) && x !in Ids(cs[IndexOf(cs, y)])
    ensures Find(RemoveFirst(cs, y), x) == Find(cs, x)
  {
    var k := IndexOf(cs, y);
    assert RemoveFirst(cs, y) == cs[..k] + cs[k+1..];
    FindSkipAt(cs, k, x);
  }

  lemma RemovedKeepsOthers(cs: seq<Task>, y: TaskId, x: TaskId)
    requires y in Kids(cs)
    requires multiset(ForestIds(cs))[x] == 1
    requires multiset(ForestIds(RemoveFirst(cs, y)))[x] == 1
    ensures x !in Ids(cs[IndexOf(cs, y)])
  {
    var k := IndexOf(cs, y);
    RemoveIds(cs, y);
    var all, gone := multiset(ForestIds(cs)), multiset(Ids(cs[k]));
    assert (all - gone)[x] == all[x] - gone[x];
  }

  lemma FindSkipAt(cs: seq<Task>, k: nat, x: TaskId)
    requires k < |cs| && x !in Ids(cs[k])
    ensures Find(cs[..k] + cs[k+1..], x) == Find(cs, x)
  {
    assert cs[..k] + [cs[k]] + cs[k+1..] == cs;
    FindSkip(cs[..k], cs[k], cs[k+1..], x);
  }

  // ---------------------------------------------------------------------
  // What an edit leaves in place

  /** A `ReplaceAll` on the list of task `pid` only rearranges that list. */
  predicate OnlyRearrangesIn(t: Task, pid: TaskId, e: Edit) {
    e.ReplaceAll? && pid in Ids(t) ==> multiset(e.items) == multiset(FindIn(t, pid).value.subTasks)
  }

  predicate OnlyRearranges(ts: seq<Task>, pid: TaskId, e: Edit) {
    e.ReplaceAll? && pid in ForestIds(ts) ==> multiset(e.items) == multiset(Find(ts, pid).value.subTasks)
  }

  /** `OnlyRearranges` of a list holds of its first tree, and of the rest
      when the first tree does not hold `pid`. */
  lemma OnlyRearrangesSplit(ts: seq<Task>, pid: TaskId, e: Edit)
    requires ts != [] && OnlyRearranges(ts, pid, e)
    ensures OnlyRearrangesIn(ts[0], pid, e)
    ensures pid !in Ids(ts[0]) ==> OnlyRearranges(ts[1..], pid, e)
  {
  }

  /** A task other than `pid` that occurs once before and once after an
      edit is still found, with the edit applied inside it. */
  lemma {:induction false} EditTaskFindOther(t: Task, pid: TaskId, e: Edit, x: TaskId, m: Task)
    requires x != pid && OnlyRearrangesIn(t, pid, e)
    requires multiset(Ids(t))[pid] <= 1
    requires multiset(Ids(t))[x] == 1 && multiset(Ids(EditTask(t, pid, e)))[x] == 1
    requires FindIn(t, x) == Some(m)
    ensures FindIn(EditTask(t, pid, e), x) == Some(EditTask(m, pid, e))
    decreases t, 1
  {
    if t.id == x {
    } else if t.id == pid {
      FindApply(t.subTasks, e, x);
      NodeIdsWithinForest(t.subTasks, m);
      assert multiset(Ids(m))[pid] <= multiset(ForestIds(t.subTasks))[pid] == 0;
      EditTaskUnchanged(m, pid, e);
    } else {
      EditForestFindOther(t.subTasks, pid, e, x, m);
    }
  }

  lemma {:induction false} EditForestFindOther(ts: seq<Task>, pid: TaskId, e: Edit, x: TaskId, m: Task)
    requires x != pid && OnlyRearranges(ts, pid, e)
    requires multiset(ForestIds(ts))[pid] <= 1
    requires multiset(ForestIds(ts))[x] == 1 && multiset(ForestIds(EditForest(ts, pid, e)))[x] == 1
    requires Find(ts, x) == Some(m)
    ensures Find(EditForest(ts, pid, e), x) == Some(EditTask(m, pid, e))
    decreases ts, 0
  {
    assert ts != [];
    var r := EditForest(ts, pid, e);
    assert r[1..] == EditForest(ts[1..], pid, e);
    OnlyRearrangesSplit(ts, pid, e);
    var head, tail := multiset(Ids(ts[0])), multiset(ForestIds(ts[1..]));
    var head', tail' := multiset(Ids(r[0])), multiset(ForestIds(r[1..]));
    assert multiset(ForestIds(ts)) == head + tail;
    assert multiset(ForestIds(r)) == head' + tail';
    if pid in Ids(ts[0]) {
      assert tail[pid] == 0;
      EditForestUnchanged(ts[1..], pid, e);
      assert tail' == tail;
    } else {
      EditTaskUnchanged(ts[0], pid, e);
      assert head' == head;
    }
    if x in Ids(ts[0]) {
      assert tail[x] == 0;
      assert head'[x] == 1;
      EditTaskFindOther(ts[0], pid, e, x, m);
    } else {
      assert head[x] == 0;
      assert head'[x] == 0;
      EditForestFindOther(ts[1..], pid, e, x, m);
    }
  }

  /** Appending a fresh task and then removing it restores the forest. */
  lemma {:induction false} AppendThenRemoveTask(t: Task, pid: TaskId, nt: Task)
    requires nt.id !in Ids(t)
    ensures EditTask(EditTask(t, pid, Append(nt)), pid, Remove(nt.id)) == t
    decreases t, 1
  {
    if t.id == pid {
      var cs := t.subTasks;
      assert Kids(cs + [nt]) == Kids(cs) + [nt.id];
      assert forall i | 0 <= i < |cs| :: cs[i].id in ForestIds(cs) by {
        forall i | 0 <= i < |cs| ensures cs[i].id in ForestIds(cs) {
          ForestIdsSplit(cs, i);
        }
      }
      assert IndexOf(cs + [nt], nt.id) == |cs|;
    } else {
      AppendThenRemoveForest(t.subTasks, pid, nt);
    }
  }

  lemma {:induction false} AppendThenRemoveForest(ts: seq<Task>, pid: TaskId, nt: Task)
    requires nt.id !in ForestIds(ts)
    ensures EditForest(EditForest(ts, pid, Append(nt)), pid, Remove(nt.id)) == ts
    decreases ts, 0
  {
    if ts != [] {
      AppendThenRemoveTask(ts[0], pid, nt);
      AppendThenRemoveForest(ts[1..], pid, nt);
      var r := EditForest(EditForest(ts, pid, Append(nt)), pid, Remove(nt.id));
      assert r == [ts[0]] + ts[1..] by {
        assert forall i | 1 <= i < |ts| :: r[i] == ts[i] by {
          var r1 := EditForest(EditForest(ts[1..], pid, Append(nt)), pid, Remove(nt.id));
          assert forall i | 1 <= i < |ts| :: r[i] == r1[i - 1];
        }
      }
    }
  }

  /** After appending fresh leaf `nt` to task `pid`, the only task listing
      `nt` among its subtasks is task `pid`. */
  lemma {:induction false} AppendedParentTask(t: Task, pid: TaskId, nt: Task, m: Task)
    requires nt.id !in Ids(t) && nt.subTasks == []
    requires m in Nodes(EditTask(t, pid, Append(nt))) && nt.id in Kids(m.subTasks)
    ensures m.id == pid
    decreases t, 1
  {
    var t' := EditTask(t, pid, Append(nt));
    if m != t' {
      assert m in ForestNodes(t'.subTasks);
      if t.id == pid {
        ForestNodesConcat(t.subTasks, [nt]);
        assert ForestNodes([nt]) == Nodes(nt) == {nt} by {
          assert [nt][1..] == [];
        }
        var i :| 0 <= i < |m.subTasks| && m.subTasks[i].id == nt.id;
        ChildIdWithin(t.subTasks, m, i);
        assert false;
      } else {
        AppendedParentForest(t.subTasks, pid, nt, m);
      }
    } else if t.id != pid {
      var i :| 0 <= i < |t.subTasks| && t.subTasks[i].id == nt.id;
      ForestIdsSplit(t.subTasks, i);
      assert false;
    }
  }

  lemma {:induction false} AppendedParentForest(ts: seq<Task>, pid: TaskId, nt: Task, m: Task)
    requires nt.id !in ForestIds(ts) && nt.subTasks == []
    requires m in ForestNodes(EditForest(ts, pid, Append(nt))) && nt.id in Kids(m.subTasks)
    ensures m.id == pid
    decreases ts, 0
  {
    var r := EditForest(ts, pid, Append(nt));
    assert r[1..] == EditForest(ts[1..], pid, Append(nt));
    if m in Nodes(r[0]) {
      AppendedParentTask(ts[0], pid, nt, m);
    } else {
      AppendedParentForest(ts[1..], pid, nt, m);
    }
  }

  // ---------------------------------------------------------------------
  // The count lemma for each kind of edit

  /** Adding a tree to the list of task `pid` adds exactly its ids. */
  lemma EditForestGrows(ts: seq<Task>, pid: TaskId, e: Edit, n: Task)
    requires multiset(ForestIds(ts))[pid] == 1 && Find(ts, pid) == Some(n)
    requires e.Append? || (e.InsertAt? && e.index <= |n.subTasks|)
    ensures multiset(ForestIds(EditForest(ts, pid, e))) == multiset(ForestIds(ts)) + multiset(Ids(e.task))
  {
    EditForestCount(ts, pid, e, n);
    if e.Append? {
      AppendIds(n.subTasks, e.task);
    } else {
      InsertIds(n.subTasks, e.index, e.task);
    }
    AddBack(multiset(ForestIds(ts)), multiset(ForestIds(n.subTasks)), multiset(Ids(e.task)));
  }

  /** Removing a subtask of task `pid` takes away exactly its ids. */
  lemma EditForestShrinks(ts: seq<Task>, pid: TaskId, y: TaskId, n: Task)
    requires multiset(ForestIds(ts))[pid] == 1 && Find(ts, pid) == Some(n)
    requires y in Kids(n.subTasks)
    ensures var gone := multiset(Ids(n.subTasks[IndexOf(n.subTasks, y)]));
      gone <= multiset(ForestIds(ts)) &&
      multiset(ForestIds(EditForest(ts, pid, Remove(y)))) == multiset(ForestIds(ts)) - gone
  {
    EditForestCount(ts, pid, Remove(y), n);
    RemoveIds(n.subTasks, y);
    var k := IndexOf(n.subTasks, y);
    assert multiset(ForestIds(RemoveFirst(n.subTasks, y))) == multiset(ForestIds(n.subTasks)) - multiset(Ids(n.subTasks[k]));
    SubtractNested(multiset(ForestIds(ts)), multiset(ForestIds(n.subTasks)), multiset(Ids(n.subTasks[k])));
  }

  lemma Cancel<T>(x: T, a: multiset<T>, b1: multiset<T>, b2: multiset<T>)
    requires multiset{x} + a == b1 + multiset{x} + b2
    ensures a == b1 + b2
  {
    forall y ensures a[y] == (b1 + b2)[y] {
      assert (multiset{x} + a)[y] == (b1 + multiset{x} + b2)[y];
    }
  }

  lemma AddBack<T>(all: multiset<T>, part: multiset<T>, t: multiset<T>)
    requires part <= all
    ensures all - part + (part + t) == all + t
  {
    assert forall x :: (all - part + (part + t))[x] == (all + t)[x];
  }

  /** Taking a part out of a part of a multiset takes it out of the whole. */
  lemma SubtractNested<T>(all: multiset<T>, part: multiset<T>, gone: multiset<T>)
    requires part <= all && gone <= part
    ensures gone <= all
    ensures all - part + (part - gone) == all - gone
  {
    assert forall x :: (all - part + (part - gone))[x] == (all - gone)[x];
  }

  /** Lists with the same trees have the same ids. */
  lemma {:induction false} PermutedIds(a: seq<Task>, b: seq<Task>)
    requires multiset(a) == multiset(b)
    ensures multiset(ForestIds(a)) == multiset(ForestIds(b))
    decreases |a|
  {
    if a == [] {
      assert |b| == |multiset(b)| == 0;
    } else {
      assert a[0] in multiset(b);
      var i :| 0 <= i < |b| && b[i] == a[0];
      var b' := b[..i] + b[i+1..];
      assert b == b[..i] + [b[i]] + b[i+1..];
      assert a == [a[0]] + a[1..];
      assert multiset(b) == multiset(b[..i]) + multiset{b[i]} + multiset(b[i+1..]);
      assert multiset(b') == multiset(b[..i]) + multiset(b[i+1..]);
      assert multiset(a) == multiset{a[0]} + multiset(a[1..]);
      Cancel(a[0], multiset(a[1..]), multiset(b[..i]), multiset(b[i+1..]));
      PermutedIds(a[1..], b');
      RemoveAtIds(b, i);
      assert multiset(ForestIds(a)) == multiset(Ids(b[i])) + multiset(ForestIds(b'));
      AddMissing(multiset(Ids(b[i])), multiset(ForestIds(b)));
    }
  }

  lemma AddMissing<T>(part: multiset<T>, all: multiset<T>)
    requires part <= all
    ensures part + (all - part) == all
  {
    assert forall x :: (part + (all - part))[x] == all[x];
  }

  /** Rearranging the list of task `pid` keeps the forest's ids. */
  lemma EditForestPermutes(ts: seq<Task>, pid: TaskId, items: seq<Task>, n: Task)
    requires multiset(ForestIds(ts))[pid] == 1 && Find(ts, pid) == Some(n)
    requires multiset(items) == multiset(n.subTasks)
    ensures multiset(ForestIds(EditForest(ts, pid, ReplaceAll(items)))) == multiset(ForestIds(ts))
  {
    EditForestCount(ts, pid, ReplaceAll(items), n);
    PermutedIds(items, n.subTasks);
  }
}
