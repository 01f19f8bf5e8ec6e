/** The EditBox control of VSToDoList.Controls/EditBox/EditBox.cs: a task
    name shown as text that switches to a text box for editing.

    The control's state is four flags. Each WPF event handler is a function
    from the state, and from what the handler reads of its surroundings
    (the tree-view item that holds the box, the mouse button, the key), to
    the next state. A handler that dereferences a null item throws; that is
    the `Failure` of its `Result`. */
module EditBox {
  import opened Wrappers
  import opened Tasks
  import opened Converters

  /** `IsInEditMode`, `_canEdit`, `_isMouseWithinScope` and
      `_isSelectionActive`. */
  datatype State = State(
    isInEditMode: bool,
    canEdit: bool,
    isMouseWithinScope: bool,
    isSelectionActive: bool)

  /** The control as created: every flag false. */
  const Cleared := State(false, false, false, false)

  /** What the handlers read of `_treeViewItem`, the tree-view item that
      holds the box; `None` when there is none. */
  datatype Item = Item(isSelectionActive: bool, isKeyboardFocusWithin: bool)

  datatype MouseButton = Left | Middle | Right | XButton1 | XButton2

  datatype Key = Enter | F2 | OtherKey(code: int)

  /** `IsItemSelected`: false without an item. */
  predicate IsItemSelected(item: Option<Item>) {
    item.Some? && item.value.isSelectionActive
  }

  /** `SetEditMode(isInEditMode)`. */
  function SetEditMode(st: State, isInEditMode: bool): (r: State)
    ensures r.isInEditMode == isInEditMode
    ensures r.(isInEditMode := st.isInEditMode) == st
  {
    st.(isInEditMode := isInEditMode)
  }

  /** `OnMouseEnter`: the first of the two events that allow editing. */
  function OnMouseEnter(st: State, item: Option<Item>): (r: State)
    ensures r.canEdit <==> st.canEdit || (!st.isInEditMode && IsItemSelected(item))
    ensures r.(canEdit := st.canEdit) == st
  {
    if !st.isInEditMode && IsItemSelected(item) then st.(canEdit := true) else st
  }

  /** `OnMouseLeave`: editing needs a new MouseEnter. */
  function OnMouseLeave(st: State): (r: State)
    ensures !r.canEdit && !r.isMouseWithinScope
    ensures r.isInEditMode == st.isInEditMode && r.isSelectionActive == st.isSelectionActive
  {
    st.(isMouseWithinScope := false, canEdit := false)
  }

  /** The conditions under which `OnMouseUp` switches to editing. */
  predicate EntersEditMode(st: State, button: MouseButton, handled: bool, item: Option<Item>) {
    && button != Right && button != Middle
    && !st.isInEditMode
    && !handled
    && (st.canEdit || st.isMouseWithinScope)
    && item.Some? && item.value.isKeyboardFocusWithin
    && st.isSelectionActive
  }

  /** `OnMouseUp`: a left click in normal mode enters editing when the
      previous click already selected the item; a click on a selected item
      arms the next one. */
  function OnMouseUp(st: State, button: MouseButton, handled: bool, item: Option<Item>): (r: Result<State, Exception>)
    ensures button == Right || button == Middle || st.isInEditMode ==> r == Success(st)
    ensures r.Failure? <==>
      && button != Right && button != Middle && !st.isInEditMode
      && !handled && (st.canEdit || st.isMouseWithinScope) && item.None?
    ensures r.Success? ==> (r.value.isInEditMode <==> st.isInEditMode || EntersEditMode(st, button, handled, item))
    ensures r.Success? ==> r.value.canEdit == st.canEdit
    ensures r.Success? && !st.isInEditMode && button != Right && button != Middle && IsItemSelected(item) ==>
      r.value.isMouseWithinScope && r.value.isSelectionActive
    ensures r.Success? && !IsItemSelected(item) ==>
      r.value.isMouseWithinScope == st.isMouseWithinScope &&
      (r.value.isSelectionActive <==> st.isSelectionActive && !EntersEditMode(st, button, handled, item))
  {
    if button == Right || button == Middle then Success(st)
    else if st.isInEditMode then Success(st)
    else
      var afterClick :-
        if !handled && (st.canEdit || st.isMouseWithinScope) then
          if item.None? then Failure(NullReference)
          else if item.value.isKeyboardFocusWithin && st.isSelectionActive then
            Success(st.(isInEditMode := true, isSelectionActive := false))
          else Success(st)
        else Success(st);
      if IsItemSelected(item) then
        Success(afterClick.(isMouseWithinScope := true, isSelectionActive := true))
      else Success(afterClick)
  }

  /** `OnTextBoxKeyDown`: Enter or F2 ends editing. */
  function OnTextBoxKeyDown(st: State, key: Key): (r: State)
    ensures st.isInEditMode && (key == Enter || key == F2) ==>
      !r.isInEditMode && !r.isSelectionActive && !r.canEdit && r.isMouseWithinScope == st.isMouseWithinScope
    ensures !(st.isInEditMode && (key == Enter || key == F2)) ==> r == st
  {
    if st.isInEditMode && (key == Enter || key == F2) then
      st.(isInEditMode := false, isSelectionActive := false, canEdit := false)
    else st
  }

  /** `OnTextBoxLostKeyboardFocus`: leaving the text box ends editing. */
  function OnTextBoxLostKeyboardFocus(st: State): (r: State)
    ensures !r.isInEditMode && !r.isSelectionActive
    ensures r.canEdit == st.canEdit && r.isMouseWithinScope == st.isMouseWithinScope
  {
    st.(isInEditMode := false, isSelectionActive := false)
  }

  /** `OnTreeViewItemLostKeyboardFocus`: the next click selects again. */
  function OnTreeViewItemLostKeyboardFocus(st: State): (r: State)
    ensures !r.isSelectionActive && r.(isSelectionActive := st.isSelectionActive) == st
  {
    st.(isSelectionActive := false)
  }

  /** `OnCouldSwitchToNormalMode`: a resize or a mouse wheel ends editing. */
  function OnCouldSwitchToNormalMode(st: State): (r: State)
    ensures !r.isInEditMode && r.(isInEditMode := st.isInEditMode) == st
  {
    st.(isInEditMode := false)
  }

  /** `OnScrollViewerChanged`: scrolling with the left button down ends
      editing. The button state is read from the mouse device. */
  function OnScrollViewerChanged(st: State, leftButtonPressed: bool): (r: State)
    ensures r.isInEditMode <==> st.isInEditMode && !leftButtonPressed
    ensures r.(isInEditMode := st.isInEditMode) == st
  {
    if st.isInEditMode && leftButtonPressed then st.(isInEditMode := false) else st
  }

  // ---------------------------------------------------------------------
  // Sequences of events

  datatype Event =
    | MouseEnter
    | MouseLeave
    | MouseUp(button: MouseButton, handled: bool)
    | TextBoxKeyDown(key: Key)
    | TextBoxLostKeyboardFocus
    | TreeViewItemLostKeyboardFocus
    | SizeChangedOrMouseWheel
    | ScrollChanged(leftButtonPressed: bool)
    | SetMode(isInEditMode: bool)

  /** An event together with the item as the handler finds it. */
  datatype Input = Input(event: Event, item: Option<Item>)

  function Step(st: State, input: Input): (r: Result<State, Exception>)
    ensures r.Failure? ==> input.event.MouseUp?
  {
    match input.event
    case MouseEnter => Success(OnMouseEnter(st, input.item))
    case MouseLeave => Success(OnMouseLeave(st))
    case MouseUp(button, handled) => OnMouseUp(st, button, handled, input.item)
    case TextBoxKeyDown(key) => Success(OnTextBoxKeyDown(st, key))
    case TextBoxLostKeyboardFocus => Success(OnTextBoxLostKeyboardFocus(st))
    case TreeViewItemLostKeyboardFocus => Success(OnTreeViewItemLostKeyboardFocus(st))
    case SizeChangedOrMouseWheel => Success(OnCouldSwitchToNormalMode(st))
    case ScrollChanged(leftButtonPressed) => Success(OnScrollViewerChanged(st, leftButtonPressed))
    case SetMode(b) => Success(SetEditMode(st, b))
  }

  /** The events in order; the first exception ends the run. */
  function Run(st: State, inputs: seq<Input>): Result<State, Exception>
    decreases |inputs|
  {
    if inputs == [] then Success(st)
    else
      var next :- Step(st, inputs[0]);
      Run(next, inputs[1..])
  }

  /** A mouse-up that `OnMouseUp` does not ignore outright. */
  predicate IsClick(e: Event) {
    e.MouseUp? && e.button != Right && e.button != Middle
  }

  /** The number of clicks among the inputs. */
  function Clicks(inputs: seq<Input>): (n: nat)
    ensures n <= |inputs|
    ensures n == 0 <==> forall i | 0 <= i < |inputs| :: !IsClick(inputs[i].event)
  {
    if inputs == [] then 0
    else (if IsClick(inputs[0].event) then 1 else 0) + Clicks(inputs[1..])
  }

  predicate NoSetMode(inputs: seq<Input>) {
    forall i | 0 <= i < |inputs| :: !inputs[i].event.SetMode?
  }

  /** Only a mouse-up and `SetEditMode(true)` switch to editing. */
  lemma OnlyClickOrSetModeEdits(st: State, input: Input)
    requires !st.isInEditMode
    requires Step(st, input).Success? && Step(st, input).value.isInEditMode
    ensures IsClick(input.event) || input.event == SetMode(true)
    ensures IsClick(input.event) ==> st.isSelectionActive
  {
  }

  /** A click never switches to editing unless an earlier click armed
      `isSelectionActive`: from the cleared state the first click selects
      the item and the second one edits. */
  lemma SingleClickDoesNotEdit(st: State, button: MouseButton, handled: bool, item: Option<Item>)
    requires !st.isInEditMode && !st.isSelectionActive
    requires OnMouseUp(st, button, handled, item).Success?
    ensures !OnMouseUp(st, button, handled, item).value.isInEditMode
  {
  }

  /** Two left clicks on a selected item that has keyboard focus switch a
      cleared box to editing, and one does not. */
  lemma DoubleClickEdits()
    ensures var click := Input(MouseUp(Left, false), Some(Item(true, true)));
      && Run(Cleared, [click]) == Success(State(false, false, true, true))
      && Run(Cleared, [click, click]).Success?
      && Run(Cleared, [click, click]).value.isInEditMode
  {
    var click := Input(MouseUp(Left, false), Some(Item(true, true)));
    var armed := State(false, false, true, true);
    assert Step(Cleared, click) == Success(armed);
    assert Run(armed, []) == Success(armed);
    assert Step(armed, click) == Success(State(true, false, true, true));
    assert [click, click][1..] == [click];
    assert Run(Cleared, [click, click]) == Run(armed, [click]);
  }

  /** The invariant behind the two clicks: `isSelectionActive` needs one
      earlier click and editing needs two, when nothing calls
      `SetEditMode`. */
  predicate ClickInvariant(st: State, clicks: nat) {
    && (st.isSelectionActive ==> clicks >= 1)
    && (st.isInEditMode ==> clicks >= 2)
  }

  lemma {:induction false} ClicksBeforeEditing(st: State, clicks: nat, inputs: seq<Input>)
    requires ClickInvariant(st, clicks) && NoSetMode(inputs)
    requires Run(st, inputs).Success?
    ensures ClickInvariant(Run(st, inputs).value, clicks + Clicks(inputs))
    decreases |inputs|
  {
    if inputs != [] {
      var next := Step(st, inputs[0]).value;
      var more := if IsClick(inputs[0].event) then 1 else 0;
      assert ClickInvariant(next, clicks + more);
      assert NoSetMode(inputs[1..]) by {
        forall i | 0 <= i < |inputs[1..]| ensures !inputs[1..][i].event.SetMode? {
          assert inputs[1..][i] == inputs[i + 1];
        }
      }
      ClicksBeforeEditing(next, clicks + more, inputs[1..]);
    }
  }

  /** From the cleared state, without `SetEditMode`, editing takes at
      least two clicks. */
  lemma EditingTakesTwoClicks(inputs: seq<Input>)
    requires NoSetMode(inputs)
    requires Run(Cleared, inputs).Success? && Run(Cleared, inputs).value.isInEditMode
    ensures Clicks(inputs) >= 2
  {
    ClicksBeforeEditing(Cleared, 0, inputs);
  }

  // ---------------------------------------------------------------------
  // TextDecoration and the visual tree

  /** `OnCoerceTextDecorationValue`: anything but a decoration collection
      becomes null. */
  function OnCoerceTextDecorationValue(baseValue: Boxed): (r: Boxed)
    ensures baseValue.DecorationsValue? ==> r == baseValue
    ensures !baseValue.DecorationsValue? ==> r == Null
  {
    if baseValue.Null? || !baseValue.DecorationsValue? then Null else baseValue
  }

  /** What the decoration converter produces for a status passes the
      coercion unchanged, so a finished task is struck through and any
      other has no decoration. */
  lemma ConvertedDecorationSurvives(s: EnumStatus)
    ensures var d := DecorationConvert(StatusValue(s));
      && d.Success?
      && OnCoerceTextDecorationValue(d.value) == d.value
      && (OnCoerceTextDecorationValue(d.value) == DecorationsValue(StrikethroughCollection) <==> s == Named(Done))
  {
  }

  /** An element of the visual tree and the names of the types it is an
      instance of (its class and every base class). */
  datatype Visual = Visual(id: nat, types: set<string>)

  /** The first element of an ancestor chain that is an instance of `t`. */
  function FirstOfType(chain: seq<Visual>, t: string): (r: Option<Visual>)
    ensures r.Some? ==> r.value in chain && t in r.value.types
    ensures r.None? <==> forall i | 0 <= i < |chain| :: t !in chain[i].types
  {
    if chain == [] then None
    else if t in chain[0].types then Some(chain[0])
    else FirstOfType(chain[1..], t)
  }

  /** `GetDependencyObjectFromVisualTree(startObject, type)`: walks from
      `startObject` up through `VisualTreeHelper.GetParent` and returns the
      first element of type `t`, or null past the root. `chain` is
      `startObject` followed by its ancestors, empty when `startObject` is
      null. */
  method GetDependencyObjectFromVisualTree(chain: seq<Visual>, t: string) returns (r: Option<Visual>)
    ensures r == FirstOfType(chain, t)
    ensures r.Some? ==> exists i | 0 <= i < |chain| ::
      (r.value == chain[i] && forall j | 0 <= j < i :: t !in chain[j].types)
  {
    var i := 0;
    while i < |chain| && t !in chain[i].types
      invariant i <= |chain|
      invariant FirstOfType(chain, t) == FirstOfType(chain[i..], t)
      invariant forall j | 0 <= j < i :: t !in chain[j].types
    {
      assert chain[i..][1..] == chain[i + 1..];
      i := i + 1;
    }
    r := if i < |chain| then Some(chain[i]) else None;
  }
}
