/** How a status change travels through the task tree (Models/Task.cs).

    Setting `Status` runs `OnPropertyChanged`: with the re-entrancy flag
    `_isParentChangedByUser` raised, Done or NotDone is assigned to every
    subtask, each of which pushes it further down; then the task notifies
    its parent. The parent's `OnChildItemPropertyChanged` ignores the report
    while its own flag is raised, and otherwise runs `UpdateTaskStatus`,
    whose assignment (if any) notifies the grandparent, and so on up.

    Event dispatch is modelled by direct calls: a notification is the
    `notified` flag of a `Reaction` handed to the caller, which plays the
    parent. Top-level tasks have no listener. */
module StatusPropagation {
  import opened Wrappers
  import opened Tasks

  /** The property name `nameof(Status)` that notifications carry. */
  const StatusProperty: string := "Status"

  function Statuses(ts: seq<Task>): (r: seq<Status>)
    ensures |r| == |ts|
    ensures forall i | 0 <= i < |ts| :: r[i] == ts[i].status
  {
    seq(|ts|, i requires 0 <= i < |ts| => ts[i].status)
  }

  predicate AnyIs(ss: seq<Status>, s: Status) {
    exists i | 0 <= i < |ss| :: ss[i] == s
  }

  predicate AnyIsNot(ss: seq<Status>, s: Status) {
    exists i | 0 <= i < |ss| :: ss[i] != s
  }

  predicate AllAre(ss: seq<Status>, s: Status) {
    forall i | 0 <= i < |ss| :: ss[i] == s
  }

  /** The decision of `UpdateTaskStatus` from the subtasks' statuses: the
      status it assigns, or None when none of its branches assigns. The
      branches run in source order and the last assignment wins. */
  function Recompute(ss: seq<Status>): (r: Option<Status>)
    ensures AnyIs(ss, Done) && AnyIsNot(ss, Done) ==> r == Some(SemiDone)
    ensures r == Some(Done) <==> |ss| > 0 && AllAre(ss, Done)
    ensures r == Some(NotDone) <==> |ss| > 0 && AllAre(ss, NotDone)
    ensures r == Some(SemiDone) <==> AllAre(ss, SemiDone) || (AnyIs(ss, Done) && AnyIsNot(ss, Done))
    ensures r.None? <==> !AnyIs(ss, Done) && AnyIs(ss, NotDone) && AnyIs(ss, SemiDone)
  {
    assert |ss| > 0 ==> ss[0] == Done || ss[0] == NotDone || ss[0] == SemiDone;
    if AnyIs(ss, Done) && AnyIsNot(ss, Done) then Some(SemiDone)
    else
      var afterDone := if AllAre(ss, Done) then Some(Done) else None;
      var afterNotDone := if AllAre(ss, NotDone) then Some(NotDone) else afterDone;
      if AllAre(ss, SemiDone) then Some(SemiDone) else afterNotDone
  }

  /** `t.Status = s` seen from `t`'s subtree: the status is stored and, for
      Done or NotDone, pushed to every subtask in order. Each subtask then
      reports to `t`, whose raised flag makes it ignore the report
      (see `OnChildItemPropertyChanged`), so no recompute happens inside. */
  function SetStatus(t: Task, s: Status): (r: Task)
    decreases t, 1
    ensures r.status == s
    ensures SameShape(r, t) && Ids(r) == Ids(t)
    ensures s == SemiDone ==> r.subTasks == t.subTasks
    ensures s != SemiDone ==> AllStatus(r, s)
  {
    var pushed := if s == Done || s == NotDone then PushDown(t.subTasks, s) else t.subTasks;
    var r := t.(status := s, subTasks := pushed);
    assert s == SemiDone ==> forall i | 0 <= i < |pushed| :: SameShape(pushed[i], t.subTasks[i]) by {
      if s == SemiDone {
        forall i | 0 <= i < |pushed| ensures SameShape(pushed[i], t.subTasks[i]) {
          SameShapeReflexive(pushed[i]);
        }
      }
    }
    r
  }

  /** The `foreach` over `SubTasks` assigning `s` to each. */
  function PushDown(cs: seq<Task>, s: Status): (r: seq<Task>)
    decreases cs, 0
    ensures |r| == |cs| && ForestIds(r) == ForestIds(cs)
    ensures forall i | 0 <= i < |cs| :: SameShape(r[i], cs[i]) && r[i].status == s
    ensures s != SemiDone ==> forall i | 0 <= i < |cs| :: AllStatus(r[i], s)
  {
    if cs == [] then []
    else
      var rest := PushDown(cs[1..], s);
      var r := [SetStatus(cs[0], s)] + rest;
      assert r[1..] == rest;
      r
  }

  /** `UpdateTaskStatus`: the task with the status its subtasks decide, or
      None when nothing is assigned (and so nothing is reported upward). */
  function UpdateTaskStatus(t: Task): Option<Task> {
    match Recompute(Statuses(t.subTasks))
    case None => None
    case Some(v) => Some(SetStatus(t, v))
  }

  /** `OnChildItemPropertyChanged`: a subtask of `t` reported a change of
      `propertyName` while `t`'s re-entrancy flag was `isParentChangedByUser`.
      Some(t') when `t` assigned itself a status (and so reports in turn). */
  function OnChildItemPropertyChanged(t: Task, propertyName: string, isParentChangedByUser: bool): (r: Option<Task>)
    ensures isParentChangedByUser ==> r.None?
    ensures propertyName != StatusProperty ==> r.None?
    ensures propertyName == StatusProperty && !isParentChangedByUser ==>
              (r.Some? <==> Recompute(Statuses(t.subTasks)).Some?)
    ensures r.Some? ==> SameShape(r.value, t) && Ids(r.value) == Ids(t)
    ensures r.Some? ==> Recompute(Statuses(t.subTasks)) == Some(r.value.status)
    ensures r.Some? && r.value.status != SemiDone ==> AllStatus(r.value, r.value.status)
    ensures r.Some? && r.value.status == SemiDone ==> r.value.subTasks == t.subTasks
  {
    if propertyName == StatusProperty && !isParentChangedByUser then UpdateTaskStatus(t) else None
  }

  /** A subtree after a change, and whether its root raised a Status
      notification toward its parent. */
  datatype Reaction = Reaction(task: Task, notified: bool)

  datatype Reactions = Reactions(tasks: seq<Task>, notified: bool)

  /** The user sets the status of task `x` to `s` somewhere inside `t`: the
      task is set, and each ancestor in turn reacts to its child's report. */
  function SetStatusAt(t: Task, x: TaskId, s: Status): (r: Reaction)
    decreases t, 1
    ensures SameShape(r.task, t) && Ids(r.task) == Ids(t)
    ensures x !in Ids(t) ==> r == Reaction(t, false)
    ensures r.notified ==> r.task.status == s || r.task.status == SemiDone
    ensures x in Ids(t) ==> FindIn(r.task, x).Some? && FindIn(r.task, x).value.status == s
    ensures x in Ids(t) && s != SemiDone ==> AllStatus(FindIn(r.task, x).value, s)
    ensures x in Ids(t) && s == SemiDone ==> FindIn(r.task, x).value.subTasks == FindIn(t, x).value.subTasks
    ensures !r.notified ==> r.task.status == t.status
  {
    if t.id == x then Reaction(SetStatus(t, s), true)
    else
      var below := SetStatusIn(t.subTasks, x, s);
      var t1 := t.(subTasks := below.tasks);
      assert SameShape(t1, t) && Ids(t1) == Ids(t);
      if !below.notified then Reaction(t1, false)
      else
        match OnChildItemPropertyChanged(t1, StatusProperty, false)
        case None => Reaction(t1, false)
        case Some(t2) =>
          RecomputeKeepsTarget(t1, x, s);
          SameShapeTransitive(t2, t1, t);
          Reaction(t2, true)
  }

  /** When a task reacts to the report of a subtask on the path to `x`, the
      status it assigns is `s` itself or SemiDone, so its push, if any,
      leaves `x` as the user set it. */
  lemma RecomputeKeepsTarget(t: Task, x: TaskId, s: Status)
    requires t.id != x && x in ForestIds(t.subTasks)
    requires exists i | 0 <= i < |t.subTasks| :: t.subTasks[i].status == s || t.subTasks[i].status == SemiDone
    requires Find(t.subTasks, x).Some? && Find(t.subTasks, x).value.status == s
    requires s != SemiDone ==> AllStatus(Find(t.subTasks, x).value, s)
    requires UpdateTaskStatus(t).Some?
    ensures var t2 := UpdateTaskStatus(t).value;
      && (t2.status == s || t2.status == SemiDone)
      && FindIn(t2, x).Some? && FindIn(t2, x).value.status == s
      && (s != SemiDone ==> AllStatus(FindIn(t2, x).value, s))
      && (s == SemiDone ==> FindIn(t2, x).value.subTasks == Find(t.subTasks, x).value.subTasks)
  {
    var t2 := UpdateTaskStatus(t).value;
    var ss := Statuses(t.subTasks);
    var i :| 0 <= i < |t.subTasks| && (t.subTasks[i].status == s || t.subTasks[i].status == SemiDone);
    assert ss[i] == t.subTasks[i].status;
    if t2.status == Done || t2.status == NotDone {
      assert AllAre(ss, t2.status);
      assert s == t2.status;
      AllStatusFindIn(t2, x, s);
    } else {
      assert t2.subTasks == t.subTasks;
    }
  }

  /** The subtask list of a task whose descendant `x` is set: the first
      subtask holding `x` is updated, the others are left as they are. */
  function SetStatusIn(cs: seq<Task>, x: TaskId, s: Status): (r: Reactions)
    decreases cs, 0
    ensures |r.tasks| == |cs| && ForestIds(r.tasks) == ForestIds(cs)
    ensures forall i | 0 <= i < |cs| :: SameShape(r.tasks[i], cs[i])
    ensures x !in ForestIds(cs) ==> r == Reactions(cs, false)
    ensures r.notified ==> exists i | 0 <= i < |cs| :: r.tasks[i].status == s || r.tasks[i].status == SemiDone
    ensures x in ForestIds(cs) ==> Find(r.tasks, x).Some? && Find(r.tasks, x).value.status == s
    ensures x in ForestIds(cs) && s != SemiDone ==> AllStatus(Find(r.tasks, x).value, s)
    ensures x in ForestIds(cs) && s == SemiDone ==> Find(r.tasks, x).value.subTasks == Find(cs, x).value.subTasks
  {
    if cs == [] then Reactions([], false)
    else if x in Ids(cs[0]) then
      var first := SetStatusAt(cs[0], x, s);
      var r := Reactions([first.task] + cs[1..], first.notified);
      assert r.tasks[0] == first.task && r.tasks[1..] == cs[1..];
      assert forall i | 1 <= i < |cs| :: SameShape(r.tasks[i], cs[i]) by {
        forall i | 1 <= i < |cs| ensures SameShape(r.tasks[i], cs[i]) {
          SameShapeReflexive(cs[i]);
        }
      }
      r
    else
      var rest := SetStatusIn(cs[1..], x, s);
      var r := Reactions([cs[0]] + rest.tasks, rest.notified);
      assert r.tasks[0] == cs[0] && r.tasks[1..] == rest.tasks;
      SameShapeReflexive(cs[0]);
      r
  }

  /** Setting `x` leaves every subtree of the list that does not hold `x`
      as it was. */
  lemma {:induction false} SetStatusInFrame(cs: seq<Task>, x: TaskId, s: Status)
    ensures var r := SetStatusIn(cs, x, s);
      forall i | 0 <= i < |cs| && x !in Ids(cs[i]) :: r.tasks[i] == cs[i]
    decreases cs
  {
    if cs != [] {
      var r := SetStatusIn(cs, x, s);
      if x in Ids(cs[0]) {
        assert r.tasks[1..] == cs[1..];
      } else {
        var rest := SetStatusIn(cs[1..], x, s);
        SetStatusInFrame(cs[1..], x, s);
        assert r.tasks[1..] == rest.tasks;
      }
      assert forall i | 1 <= i < |cs| :: r.tasks[i] == r.tasks[1..][i - 1] && cs[i] == cs[1..][i - 1];
    }
  }

  /** When no subtask reports, every task of the list keeps its status. */
  lemma {:induction false} SetStatusInQuiet(cs: seq<Task>, x: TaskId, s: Status)
    ensures var r := SetStatusIn(cs, x, s);
      !r.notified ==> Statuses(r.tasks) == Statuses(cs)
    decreases cs
  {
    var r := SetStatusIn(cs, x, s);
    if cs != [] && !r.notified {
      if x in Ids(cs[0]) {
        assert r.tasks[1..] == cs[1..];
        assert r.tasks[0].status == cs[0].status;
      } else {
        var rest := SetStatusIn(cs[1..], x, s);
        SetStatusInQuiet(cs[1..], x, s);
        assert r.tasks[1..] == rest.tasks;
        assert Statuses(rest.tasks) == Statuses(cs[1..]);
      }
      assert forall i | 1 <= i < |cs| :: r.tasks[i] == r.tasks[1..][i - 1] && cs[i] == cs[1..][i - 1];
    }
  }

  /** Ticking the check box of task `x` in the top-level list. */
  function SetTaskStatus(forest: seq<Task>, x: TaskId, s: Status): (r: seq<Task>)
    ensures ForestIds(r) == ForestIds(forest) && Kids(r) == Kids(forest)
    ensures x !in ForestIds(forest) ==> r == forest
    ensures x in ForestIds(forest) ==> Find(r, x).Some? && Find(r, x).value.status == s
    ensures x in ForestIds(forest) && s != SemiDone ==> AllStatus(Find(r, x).value, s)
    ensures x in ForestIds(forest) && s == SemiDone ==> Find(r, x).value.subTasks == Find(forest, x).value.subTasks
    ensures forall i | 0 <= i < |forest| && x !in Ids(forest[i]) :: r[i] == forest[i]
  {
    SetStatusInFrame(forest, x, s);
    SetStatusIn(forest, x, s).tasks
  }

  // ---------------------------------------------------------------------
  // The ripple upward keeps every task in agreement with its subtasks

  /** `UpdateTaskStatus` would leave `t` as it is: its subtasks decide no
      status, or the one `t` already has. A task without subtasks never
      hears a report, so any status is settled for it. */
  predicate Settled(t: Task) {
    t.subTasks == [] || Recompute(Statuses(t.subTasks)) in {None, Some(t.status)}
  }

  /** Every task of the subtree is settled. */
  predicate Consistent(t: Task)
    decreases t, 1
  {
    Settled(t) && AllConsistent(t.subTasks)
  }

  predicate AllConsistent(ts: seq<Task>)
    decreases ts, 0
  {
    forall i | 0 <= i < |ts| :: Consistent(ts[i])
  }

  /** A subtree that is Done (or NotDone) throughout is consistent. */
  lemma {:induction false} AllStatusConsistent(t: Task, s: Status)
    requires s != SemiDone && AllStatus(t, s)
    ensures Consistent(t)
    decreases t
  {
    forall i | 0 <= i < |t.subTasks| ensures Consistent(t.subTasks[i]) {
      AllStatusConsistent(t.subTasks[i], s);
    }
    if t.subTasks != [] {
      assert AllAre(Statuses(t.subTasks), s);
    }
  }

  /** Ticking task `x` to Done or NotDone inside a consistent subtree leaves
      it consistent: `x`'s subtree takes the status, and every ancestor that
      hears a report recomputes its own. */
  lemma {:induction false} SetStatusAtConsistent(t: Task, x: TaskId, s: Status)
    requires s != SemiDone && Consistent(t)
    ensures Consistent(SetStatusAt(t, x, s).task)
    decreases t, 1
  {
    if t.id == x {
      AllStatusConsistent(SetStatus(t, s), s);
    } else {
      var below := SetStatusIn(t.subTasks, x, s);
      var t1 := t.(subTasks := below.tasks);
      SetStatusInConsistent(t.subTasks, x, s);
      SetStatusInQuiet(t.subTasks, x, s);
      if !below.notified {
        assert Statuses(t1.subTasks) == Statuses(t.subTasks);
      } else {
        match OnChildItemPropertyChanged(t1, StatusProperty, false)
        case None =>
        case Some(t2) =>
          if t2.status != SemiDone {
            AllStatusConsistent(t2, t2.status);
          }
      }
    }
  }

  lemma {:induction false} SetStatusInConsistent(cs: seq<Task>, x: TaskId, s: Status)
    requires s != SemiDone && AllConsistent(cs)
    ensures AllConsistent(SetStatusIn(cs, x, s).tasks)
    decreases cs, 0
  {
    if cs != [] {
      var r := SetStatusIn(cs, x, s);
      if x in Ids(cs[0]) {
        SetStatusAtConsistent(cs[0], x, s);
        assert r.tasks[1..] == cs[1..];
      } else {
        SetStatusInConsistent(cs[1..], x, s);
        assert r.tasks[1..] == SetStatusIn(cs[1..], x, s).tasks;
      }
      assert forall i | 1 <= i < |cs| :: r.tasks[i] == r.tasks[1..][i - 1];
      assert forall i | 1 <= i < |cs| :: cs[i] == cs[1..][i - 1];
    }
  }

  /** Ticking a task of a consistent forest to Done or NotDone leaves every
      task in agreement with its subtasks. */
  lemma SetTaskStatusConsistent(forest: seq<Task>, x: TaskId, s: Status)
    requires s != SemiDone && AllConsistent(forest)
    ensures AllConsistent(SetTaskStatus(forest, x, s))
  {
    SetStatusInConsistent(forest, x, s);
  }
}
