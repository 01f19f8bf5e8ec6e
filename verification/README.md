# VS To-Do List: a Dafny model of the task tree and its controls

This project models the core of the VS To-Do List extension for Visual
Studio: a forest of tasks with check-box statuses, the commands that add,
remove and move tasks in it, the two value converters that show a status,
and the EditBox control that switches a task name between display and
editing.

| file | module | models |
|---|---|---|
| `wrappers.dfy` | `Wrappers` | `Option` for a reference that may be null, `Result` for a call that may throw |
| `tasks.dfy` | `Tasks` | the `Task` object of `Models/Task.cs` as an immutable tree; ids, nodes, lookup by id, and `Unique` (every task object occurs once) |
| `status_propagation.dfy` | `StatusPropagation` | the `Status` setter, `OnPropertyChanged`, `OnChildItemPropertyChanged` and `UpdateTaskStatus` |
| `task_helper.dfy` | `TaskHelper` | `FindParentTask` and `FindParentTaskInChild` |
| `forest_edits.dfy` | `ForestEdits` | `Add`, `Insert`, `Remove` and `IndexOf` on one task's `SubTasks`, seen from the whole forest |
| `view_model.dfy` | `ViewModel` | `AddNewTask`, `RemoveTask`, `MoveTask` and `Move` of both view models |
| `converters.dfy` | `Converters` | `TaskStatusToBooleanConverter` and `TaskStatusToTextDecorationConverter` |
| `edit_box.dfy` | `EditBox` | the edit-mode flags of `EditBox` and its event handlers, `OnCoerceTextDecorationValue` and `GetDependencyObjectFromVisualTree` |

The C# tasks are mutable objects that are compared by reference. Here a
task is a value with an `id` that stands for that reference. Changing
`p.SubTasks` changes the collection of the object `p` wherever it occurs;
`EditForest(f, p.id, e)` does this to every node with that id. All the
properties about the forest assume `Unique(f)`: every id occurs once, so
every task object sits in one place. The view-model commands keep `Unique`,
and the lemmas prove it.

The older view model (`UI/MainWindow/ToDoListWindowViewModel.cs`) has the
same `AddNewTask` and `RemoveTask` as the newer one
(`UI/MainWindow/ViewModels/ToDoListWindowViewModel.cs`). One definition
models both, and the table below cites whichever file a row was checked
against.

Status propagation models the .NET event dispatch as direct calls.
`SetStatus` is the setter: Done or NotDone goes to every subtask in turn,
and each of those pushes it further down. Each subtask then reports to its
parent. The parent's re-entrancy flag is raised during the push, so the
report is ignored. `SetStatusAt` is what happens when the user ticks one
task: it is set, and each ancestor in turn hears a report while its flag is
down and runs `UpdateTaskStatus`. `Recompute` is that method's decision.
Its `if` branches run in source order, and the last assignment wins.
A tree is `Consistent` when every task that has subtasks holds the status
`Recompute` would give it, or one `Recompute` leaves alone. Ticking a task
to Done or NotDone keeps a consistent forest consistent.

## Model

| member | source | states |
|---|---|---|
| `Tasks.NewTask` | src/VSToDoList/VSToDoList/Models/Task.cs:21-26 | a new task has no subtasks, `IsDone` is false, it has no name and it is collapsed |
| `StatusPropagation.SetStatus` | src/VSToDoList/VSToDoList/Models/Task.cs:105-128 | the task takes the status. Done or NotDone then holds at every descendant. SemiDone leaves the subtasks exactly as they were. The tree's shape and ids do not change |
| `StatusPropagation.PushDown` | src/VSToDoList/VSToDoList/Models/Task.cs:113-123 | every subtask takes the status; for Done or NotDone so does its whole subtree; ids and shape are kept |
| `StatusPropagation.Recompute` | src/VSToDoList/VSToDoList/Models/Task.cs:179-196 | a Done child plus a non-Done child gives SemiDone. A non-empty list that is all Done gives Done, and one that is all NotDone gives NotDone. All SemiDone gives SemiDone. Nothing is assigned exactly when no child is Done and both NotDone and SemiDone occur |
| `StatusPropagation.OnChildItemPropertyChanged` | src/VSToDoList/VSToDoList/Models/Task.cs:162-169 | with the flag raised, or for a property other than Status, nothing happens. Otherwise the task recomputes, and it changes exactly when `Recompute` assigns a status. The result is that status, with the shape and ids kept. A Done or NotDone result reaches the whole subtree, and a SemiDone result leaves the subtasks as they were |
| `StatusPropagation.SetStatusAt` | src/VSToDoList/VSToDoList/Models/Task.cs:105-198 | setting task `x` inside a tree leaves `x` with the chosen status. For Done or NotDone its whole subtree is that status; for SemiDone its subtasks are untouched. Shape and ids are kept, and a tree without `x` is unchanged. A report to the parent carries the chosen status or SemiDone, and without a report the root keeps its status |
| `StatusPropagation.RecomputeKeepsTarget` | src/VSToDoList/VSToDoList/Models/Task.cs:176-198 | when an ancestor recomputes after such a report, it assigns the chosen status or SemiDone, and what it pushes down leaves `x` as the user set it |
| `StatusPropagation.SetStatusIn` | src/VSToDoList/VSToDoList/Models/Task.cs:162-169 | within a subtask list `x` ends with the chosen status, as a whole subtree for Done or NotDone and with its subtasks untouched for SemiDone. The list keeps its ids and shape, a list without `x` is unchanged, and a report names a subtask that now has the chosen status or SemiDone |
| `StatusPropagation.SetStatusInFrame` | src/VSToDoList/VSToDoList/Models/Task.cs:162-169 | every subtree of the list that does not hold `x` is left exactly as it was |
| `StatusPropagation.SetStatusInQuiet` | src/VSToDoList/VSToDoList/Models/Task.cs:162-169 | when no subtask reports, every subtask keeps its status, so the parent has nothing to recompute |
| `StatusPropagation.SetTaskStatus` | src/VSToDoList/VSToDoList/Models/Task.cs:91-99 | setting the status of task `x` in the forest leaves `x` with that status, with its whole subtree too for Done or NotDone and its subtasks untouched for SemiDone. Ids and the top-level list are kept, and every top-level tree that does not hold `x` is unchanged |
| `StatusPropagation.AllStatusConsistent` | src/VSToDoList/VSToDoList/Models/Task.cs:179-196 | a tree whose every task has the same Done or NotDone status is consistent |
| `StatusPropagation.SetStatusAtConsistent` | src/VSToDoList/VSToDoList/Models/Task.cs:105-198 | ticking a task of a consistent tree to Done or NotDone leaves it consistent: the subtree takes the status and every ancestor that hears the report recomputes its own |
| `StatusPropagation.SetStatusInConsistent` | src/VSToDoList/VSToDoList/Models/Task.cs:162-169 | the same for a list of consistent subtrees |
| `StatusPropagation.SetTaskStatusConsistent` | src/VSToDoList/VSToDoList/Models/Task.cs:91-99 | ticking a task to Done or NotDone keeps a consistent forest consistent |
| `TaskHelper.FirstWithChild` | src/VSToDoList/VSToDoList/BL/Helpers/TaskHelper.cs:17 | `FirstOrDefault`: the first task in list order whose direct subtasks hold the target, and null exactly when there is none |
| `TaskHelper.FindParentTask` | src/VSToDoList/VSToDoList/BL/Helpers/TaskHelper.cs:15-28 | a result is a task of the forest that directly holds the target (soundness). It is non-null exactly when some task of the forest holds the target directly (completeness) |
| `TaskHelper.FindParentTaskInChild` | src/VSToDoList/VSToDoList/BL/Helpers/TaskHelper.cs:36-49 | the same soundness and completeness over the tasks below `child` |
| `TaskHelper.FindInEach` | src/VSToDoList/VSToDoList/BL/Helpers/TaskHelper.cs:20-24 | the `foreach` loop finds a parent below some task of the list exactly when one exists there |
| `TaskHelper.FindParentTaskPrefersTopLevel` | src/VSToDoList/VSToDoList/BL/Helpers/TaskHelper.cs:17 | a top-level task that directly holds the target wins, and the first such one in list order |
| `TaskHelper.FindParentTaskSearchesInOrder` | src/VSToDoList/VSToDoList/BL/Helpers/TaskHelper.cs:18-25 | otherwise the answer is that of the first top-level subtree whose search succeeds |
| `TaskHelper.FindParentTaskInChildIsStrict` | src/VSToDoList/VSToDoList/BL/Helpers/TaskHelper.cs:38-46 | `FindParentTaskInChild(child, t)` never answers `child` itself |
| `TaskHelper.FindParentTaskOfAbsent` | src/VSToDoList/VSToDoList/BL/Helpers/TaskHelper.cs:27 | a task absent from the forest has no parent (null) |
| `TaskHelper.FindParentTaskOfTopLevel` | src/VSToDoList/VSToDoList/BL/Helpers/TaskHelper.cs:15-28 | in a forest where every task occurs once, a top-level task has no parent (null) |
| `ForestEdits.IndexOfId` | src/VSToDoList/VSToDoList/UI/MainWindow/ViewModels/ToDoListWindowViewModel.cs:129 | `IndexOf`: -1 exactly when the task is absent, otherwise the first position that holds it |
| `ForestEdits.Insert` | src/VSToDoList/VSToDoList/UI/MainWindow/ViewModels/ToDoListWindowViewModel.cs:130 | `Insert(k, t)`: `t` stands at `k`, with the tasks before it and after it kept in order |
| `ForestEdits.RemoveFirst` | src/VSToDoList/VSToDoList/UI/MainWindow/ViewModels/ToDoListWindowViewModel.cs:104 | `Remove(t)`: the first occurrence goes and the rest keep their order; without one the list is unchanged |
| `ForestEdits.EditForest` | src/VSToDoList/VSToDoList/UI/MainWindow/ViewModels/ToDoListWindowViewModel.cs:75 | a change to one task's collection keeps the top-level list's length and ids, and happens inside each top-level tree on its own |
| `ForestEdits.EditForestUnchanged` | src/VSToDoList/VSToDoList/UI/MainWindow/ViewModels/ToDoListWindowViewModel.cs:100 | a forest that does not hold the task whose collection changes is unchanged |
| `ForestEdits.EditForestFindTarget` | src/VSToDoList/VSToDoList/UI/MainWindow/ViewModels/ToDoListWindowViewModel.cs:75 | the changed task, looked up by id afterwards, is the old task with the edited collection |
| `ForestEdits.EditForestFindOther` | src/VSToDoList/VSToDoList/UI/MainWindow/ViewModels/ToDoListWindowViewModel.cs:100 | any other task that occurs once before and after is found again, with the edit applied inside it only. This holds for every edit: `Add`, `Insert`, `Remove`, and a `SwapItems` that rearranges the list |
| `ForestEdits.FindPermuted` | src/VSToDoList/VSToDoList/UI/MainWindow/ViewModels/ToDoListWindowViewModel.cs:124-125 | rearranging a list does not change the task found for an id that occurs once in it |
| `ForestEdits.EditForestGrows` | src/VSToDoList/VSToDoList/UI/MainWindow/ViewModels/ToDoListWindowViewModel.cs:136 | `Add` or `Insert` adds exactly the ids of the inserted tree to the forest |
| `ForestEdits.EditForestShrinks` | src/VSToDoList/VSToDoList/UI/MainWindow/ViewModels/ToDoListWindowViewModel.cs:131 | `Remove` takes exactly the ids of the removed subtree out of the forest |
| `ForestEdits.EditForestPermutes` | src/VSToDoList/VSToDoList/UI/MainWindow/ViewModels/ToDoListWindowViewModel.cs:125 | rearranging one collection keeps the forest's ids |
| `ForestEdits.AppendThenRemoveForest` | src/VSToDoList/VSToDoList/UI/MainWindow/ToDoListWindowViewModel.cs:71 | adding a fresh task to a collection and removing it again restores the forest |
| `ForestEdits.AppendedParentForest` | src/VSToDoList/VSToDoList/UI/MainWindow/ToDoListWindowViewModel.cs:93 | after a fresh task is added to `p`, the only task that holds it is `p` |
| `ViewModel.AddNewTask` | src/VSToDoList/VSToDoList/UI/MainWindow/ViewModels/ToDoListWindowViewModel.cs:69-81 | without a parent, the new task is appended to the top-level list and everything before it is kept. With a parent, the top-level list keeps its ids |
| `ViewModel.AddNewTaskIds` | src/VSToDoList/VSToDoList/UI/MainWindow/ToDoListWindowViewModel.cs:65-77 | adding a task adds exactly its id and keeps every task once |
| `ViewModel.AddNewTaskNested` | src/VSToDoList/VSToDoList/UI/MainWindow/ViewModels/ToDoListWindowViewModel.cs:73-76 | with a parent `p`, `p` gains the new task at the end of its subtasks, and every other task keeps its subtask list |
| `ViewModel.RemoveTask` | src/VSToDoList/VSToDoList/UI/MainWindow/ViewModels/ToDoListWindowViewModel.cs:95-105 | a task with a parent leaves the top-level list alone. A top-level task leaves it at its first position. A task in neither place changes nothing |
| `ViewModel.RemoveTaskDropsSubtree` | src/VSToDoList/VSToDoList/UI/MainWindow/ViewModels/ToDoListWindowViewModel.cs:97-104 | removing a task takes away exactly its subtree's ids, keeps every other task once, and the task is gone |
| `ViewModel.RemoveNestedTask` | src/VSToDoList/VSToDoList/UI/MainWindow/ViewModels/ToDoListWindowViewModel.cs:97-102 | a nested task leaves its parent's list at its position. Every other remaining task keeps its subtask list |
| `ViewModel.RemoveKeepsOtherLists` | src/VSToDoList/VSToDoList/UI/MainWindow/ToDoListWindowViewModel.cs:93-98 | removing a nested task changes no task's subtask list but its parent's |
| `ViewModel.RemoveTopLevelTask` | src/VSToDoList/VSToDoList/UI/MainWindow/ToDoListWindowViewModel.cs:100 | removing a top-level task cuts it out of the top-level list and leaves the rest as it was |
| `ViewModel.AddThenRemove` | src/VSToDoList/VSToDoList/UI/MainWindow/ToDoListWindowViewModel.cs:65-101 | adding a new task and then removing it gives back the forest, with or without a parent |
| `ViewModel.Move` | src/VSToDoList/VSToDoList/UI/MainWindow/ViewModels/ToDoListWindowViewModel.cs:119-145 | it fails (the `Insert` at index -1) exactly when the parents differ and `after` is not in its own parent's list, or not in the top-level list when it has no parent |
| `ViewModel.MoveTask` | src/VSToDoList/VSToDoList/UI/MainWindow/ViewModels/ToDoListWindowViewModel.cs:112-117 | it fails exactly when `current` has a parent, `after` has none, and `after` is not in the top-level list |
| `ViewModel.MoveWithinOneList` | src/VSToDoList/VSToDoList/UI/MainWindow/ViewModels/ToDoListWindowViewModel.cs:121-126 | with a shared parent, or none, only that one list is handed to `SwapItems`. When `SwapItems` rearranges, the forest keeps every task once and the top-level list keeps its ids. Every task keeps its status and its subtask list, except the shared parent, whose list is the rearranged one |
| `ViewModel.RearrangeList` | src/VSToDoList/VSToDoList/UI/MainWindow/ViewModels/ToDoListWindowViewModel.cs:125 | rearranging the list of one task keeps every task once. That task now holds the rearranged list, and every other task keeps its status and its subtask list |
| `ViewModel.MoveUpToTopLevel` | src/VSToDoList/VSToDoList/UI/MainWindow/ViewModels/ToDoListWindowViewModel.cs:127-132 | a nested task dropped on a top-level task stands just before it in the top-level list. Its old parent no longer lists it, the forest keeps every task once, and every other task keeps its status and its subtask list |
| `ViewModel.LiftToTopLevel` | src/VSToDoList/VSToDoList/UI/MainWindow/ViewModels/ToDoListWindowViewModel.cs:129-131 | the insertion followed by the removal: the same ids, the top-level list with `current` at `k`, and the old parent without it |
| `ViewModel.MoveDownFromTopLevel` | src/VSToDoList/VSToDoList/UI/MainWindow/ViewModels/ToDoListWindowViewModel.cs:133-138 | a top-level task dropped on a nested task stands just before it in that task's parent. It leaves the top-level list, the forest keeps every task once, and every task but the new parent keeps its status and its subtask list |
| `ViewModel.SinkIntoList` | src/VSToDoList/VSToDoList/UI/MainWindow/ViewModels/ToDoListWindowViewModel.cs:135-137 | the insertion into the new parent followed by the removal from the top-level list: the same ids, and the new parent's list with `current` at `k` |
| `ViewModel.MoveBetweenParents` | src/VSToDoList/VSToDoList/UI/MainWindow/ViewModels/ToDoListWindowViewModel.cs:139-144 | a nested task dropped on a task with another parent stands just before it in the new parent's list. The old parent no longer lists it, the top-level list is as it was, the forest keeps every task once, and every task but the two parents keeps its status and its subtask list |
| `ViewModel.LiftKeepsOthers` | src/VSToDoList/VSToDoList/UI/MainWindow/ViewModels/ToDoListWindowViewModel.cs:129-131 | the lift out of the list of `p` leaves every task but `p` with its status and its subtask list |
| `ViewModel.SinkKeepsOthers` | src/VSToDoList/VSToDoList/UI/MainWindow/ViewModels/ToDoListWindowViewModel.cs:135-137 | the sink into the list of `q` leaves every task but `q` with its status and its subtask list |
| `ViewModel.BetweenKeepsOthers` | src/VSToDoList/VSToDoList/UI/MainWindow/ViewModels/ToDoListWindowViewModel.cs:141-143 | the move from `p` to `q` leaves every other task with its status and its subtask list |
| `ViewModel.SubtreeKept` | src/VSToDoList/VSToDoList/UI/MainWindow/ViewModels/ToDoListWindowViewModel.cs:119-145 | the moved subtree stands in the forest after the move, so each task inside it is found exactly as before |
| `ViewModel.BetweenIds` | src/VSToDoList/VSToDoList/UI/MainWindow/ViewModels/ToDoListWindowViewModel.cs:141-143 | the insertion and the removal together keep exactly the forest's ids, each once |
| `Converters.StatusToChecked` | src/VSToDoList/VSToDoList/BL/Services/Converters/TaskStatusToBooleanConverter.cs:13-29 | true exactly for Done and null exactly for SemiDone. NotDone and any undefined enum value give false |
| `Converters.CheckedToStatus` | src/VSToDoList/VSToDoList/BL/Services/Converters/TaskStatusToBooleanConverter.cs:34-38 | Done exactly for true and SemiDone exactly for null; false gives NotDone |
| `Converters.BooleanConvert` | src/VSToDoList/VSToDoList/BL/Services/Converters/TaskStatusToBooleanConverter.cs:10-30 | the unboxing cast throws on null and on a value that is not a status; a status always converts to a `bool?` |
| `Converters.BooleanConvertBack` | src/VSToDoList/VSToDoList/BL/Services/Converters/TaskStatusToBooleanConverter.cs:32-39 | null and booleans convert to a named status; anything else fails the cast |
| `Converters.StatusRoundTrip` | src/VSToDoList/VSToDoList/BL/Services/Converters/TaskStatusToBooleanConverter.cs:13-38 | `ConvertBack(Convert(s)) == s` for each of the three statuses |
| `Converters.CheckedRoundTrip` | src/VSToDoList/VSToDoList/BL/Services/Converters/TaskStatusToBooleanConverter.cs:13-36 | `Convert(ConvertBack(b)) == b` for true, false and null |
| `Converters.DecorationConvert` | src/VSToDoList/VSToDoList/BL/Services/Converters/TaskStatusToTextDecorationConverter.cs:14-19 | a value that is not a status is refused with "Task Status". Done gives the strikethrough collection, and every other status gives null |
| `Converters.DecorationConvertBack` | src/VSToDoList/VSToDoList/BL/Services/Converters/TaskStatusToTextDecorationConverter.cs:21-24 | always throws `NotImplementedException` |
| `Converters.DecorationOnlyWhenDone` | src/VSToDoList/VSToDoList/BL/Services/Converters/TaskStatusToTextDecorationConverter.cs:16-18 | every status converts, and a decoration results exactly for Done |
| `EditBox.SetEditMode` | src/VSToDoList/VSToDoList.Controls/EditBox/EditBox.cs:67-70 | sets the edit mode and no other flag |
| `EditBox.OnMouseEnter` | src/VSToDoList/VSToDoList.Controls/EditBox/EditBox.cs:82-89 | `canEdit` becomes true exactly when not editing and the item is selected; nothing else changes |
| `EditBox.OnMouseLeave` | src/VSToDoList/VSToDoList.Controls/EditBox/EditBox.cs:96-101 | clears `canEdit` and `isMouseWithinScope`, keeps the rest |
| `EditBox.OnMouseUp` | src/VSToDoList/VSToDoList.Controls/EditBox/EditBox.cs:114-144 | edit mode is entered exactly when it is not a right or middle button, not already editing, unhandled, `canEdit` or `isMouseWithinScope`, focus within the item and `isSelectionActive`. A left-button click on a selected item, outside edit mode, arms `isMouseWithinScope` and `isSelectionActive`. A right or middle button, or a mouse-up while editing, changes nothing. A missing item throws exactly when its focus is read |
| `EditBox.OnTextBoxKeyDown` | src/VSToDoList/VSToDoList.Controls/EditBox/EditBox.cs:297-305 | Enter or F2 while editing leaves edit mode and clears `isSelectionActive` and `canEdit`; any other key, or not editing, changes nothing |
| `EditBox.OnTextBoxLostKeyboardFocus` | src/VSToDoList/VSToDoList.Controls/EditBox/EditBox.cs:311-316 | always leaves edit mode and clears `isSelectionActive` |
| `EditBox.OnTreeViewItemLostKeyboardFocus` | src/VSToDoList/VSToDoList.Controls/EditBox/EditBox.cs:318-321 | clears `isSelectionActive` only |
| `EditBox.OnCouldSwitchToNormalMode` | src/VSToDoList/VSToDoList.Controls/EditBox/EditBox.cs:327-331 | a resize or the mouse wheel always leaves edit mode and changes nothing else |
| `EditBox.OnScrollViewerChanged` | src/VSToDoList/VSToDoList.Controls/EditBox/EditBox.cs:358-365 | a scroll leaves edit mode exactly when the left button is pressed; nothing else changes |
| `EditBox.Step` | src/VSToDoList/VSToDoList.Controls/EditBox/EditBox.cs:114-144 | only a mouse-up can throw |
| `EditBox.OnlyClickOrSetModeEdits` | src/VSToDoList/VSToDoList.Controls/EditBox/EditBox.cs:122-133 | only a left (or extra) button mouse-up with `isSelectionActive` set, or `SetEditMode(true)`, enters edit mode |
| `EditBox.SingleClickDoesNotEdit` | src/VSToDoList/VSToDoList.Controls/EditBox/EditBox.cs:126-142 | a click while `isSelectionActive` is clear never enters edit mode |
| `EditBox.DoubleClickEdits` | src/VSToDoList/VSToDoList.Controls/EditBox/EditBox.cs:135-142 | from the initial state one click on a selected, focused item only arms the flags, and a second click edits |
| `EditBox.ClicksBeforeEditing` | src/VSToDoList/VSToDoList.Controls/EditBox/EditBox.cs:114-144 | without `SetEditMode`, `isSelectionActive` needs one earlier click and edit mode needs two, over any sequence of events |
| `EditBox.EditingTakesTwoClicks` | src/VSToDoList/VSToDoList.Controls/EditBox/EditBox.cs:135-142 | without `SetEditMode`, a run from the initial state that ends in edit mode holds at least two clicks |
| `EditBox.OnCoerceTextDecorationValue` | src/VSToDoList/VSToDoList.Controls/EditBox/EditBox.cs:257-261 | a decoration collection passes unchanged; anything else becomes null |
| `EditBox.ConvertedDecorationSurvives` | src/VSToDoList/VSToDoList.Controls/EditBox/EditBox.cs:259-260 | the decoration converter's output for any status passes coercion unchanged, so only a Done task is struck through |
| `EditBox.FirstOfType` | src/VSToDoList/VSToDoList.Controls/EditBox/EditBox.cs:371-386 | the answer is an element of the chain that has the wanted type, and it is null exactly when no element of the chain has that type |
| `EditBox.GetDependencyObjectFromVisualTree` | src/VSToDoList/VSToDoList.Controls/EditBox/EditBox.cs:371-386 | the loop returns the first element of the ancestor chain of the wanted type, and null when there is none |

## Left out

- Persistence: `SaveTasks`, `LoadTasks`, `GetSolutionFullName` and `ITaskService.cs`. These are file I/O, JSON serialisation and IDE service lookup.
- `TaskHelper.SwapItems`: its body is not part of this model. `Move` takes it as a function parameter. `MoveWithinOneList` assumes that it only rearranges the list it is given (`Permutes`).
- `ForestEdits.EditForestFindOther`: for a wholesale replacement of one list (the effect of `SwapItems`) it requires the new list to hold the same trees as the old one. A replacement that brings in other trees is not covered.
- `ViewModel.Move`: the code does not check that `after` is outside `current`'s subtree; moving a task below itself would make a cycle, which a tree value cannot hold. `Move` and `MoveTask` require `after` to be outside `current`'s subtasks.
- The lemmas about the forest require `Unique`, that every task object occurs once. The commands are total and defined for any forest.
- `ForestEdits.Insert`: an index past the end throws `ArgumentOutOfRangeException` in .NET. Here it leaves the list unchanged. No command reaches that case. The index -1 of a missing `after` is modelled as a failure of `Move`.
- `Tasks.NewTask`: the declaration of the `TaskStatus` enum is not part of this model, so the status of a new task (the enum's zero member) is a parameter.
- `OnSubTaskItemChanged` (un)subscribes each child's `PropertyChanged`. That wiring is modelled by `SetStatusAt` calling its parent's reaction directly. `NotifiesPropertyChanged` dispatch and the `Name`, `IsDone` and `IsExpanded` notifications are not modelled, because nothing listens to them in the core.
- `EditBox`: `OnApplyTemplate`, the adorner (`EditBoxAdorner.cs`), `UpdateVisibilty`, the hooks of `HookItemsControlEvents` and `HookTemplateParentResizeEvent`, and `OnTextDecorationPropertyChanged` are WPF wiring and layout. The `Value` property is not modelled either. The handlers take the item, the button, the key and the left-button state as parameters.
- `EditBox.GetDependencyObjectFromVisualTree`: `VisualTreeHelper.GetParent` is not modelled. The walk is given the chain of the start object and its ancestors as a list, and an element's types are the names of its class and its base classes.
- `ControlSizeConverter.cs`, `TreeViewHelper.cs`, and the package, command, window and control classes are Visual Studio hosting and WPF plumbing.
- `Converters`: a boxed value other than null, a status, a bool or a decoration collection is one opaque `OtherValue`. Unboxing a plain integer as a `TaskStatus` is not modelled; an out-of-range enum value is `Undefined`.
