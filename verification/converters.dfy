/** The two WPF value converters of BL/Services/Converters:
    TaskStatusToBooleanConverter, which binds a task's status to a
    three-state check box, and TaskStatusToTextDecorationConverter, which
    strikes through the name of a finished task.

    A converter receives and returns `object`; `Boxed` is the part of that
    type the converters can tell apart, and `Result` stands for the
    exception a cast or an explicit `throw` raises. */
module Converters {
  import opened Wrappers
  import opened Tasks

  /** A value of the enum type `TaskStatus`: one of its three members, or
      some other number cast to the enum. */
  datatype EnumStatus = Named(status: Status) | Undefined(code: int)

  /** The lines a WPF `TextDecoration` can draw. */
  datatype TextDecoration = Underline | Overline | Baseline | Strikethrough

  /** What a binding hands a converter, or a converter hands back. */
  datatype Boxed =
    | Null
    | StatusValue(status: EnumStatus)
    | BoolValue(b: bool)
    | DecorationsValue(lines: seq<TextDecoration>)
    | OtherValue

  datatype Exception =
    | NullReference
    | InvalidCast
    | Argument(message: string)
    | NotImplemented(message: string)

  /** `TextDecorations.Strikethrough`: the collection of one strikethrough
      line. */
  const StrikethroughCollection: seq<TextDecoration> := [Strikethrough]

  // ---------------------------------------------------------------------
  // TaskStatusToBooleanConverter

  /** The switch of `Convert`, on an unboxed status: a `bool?` where `None`
      is null, the check box's third state. */
  function StatusToChecked(s: EnumStatus): (r: Option<bool>)
    ensures r == Some(true) <==> s == Named(Done)
    ensures r.None? <==> s == Named(SemiDone)
    ensures s.Undefined? ==> r == Some(false)
  {
    match s
    case Named(Done) => Some(true)
    case Named(NotDone) => Some(false)
    case Named(SemiDone) => None
    case Undefined(_) => Some(false)
  }

  /** `ConvertBack` on a `bool?`. */
  function CheckedToStatus(b: Option<bool>): (r: Status)
    ensures r == Done <==> b == Some(true)
    ensures r == SemiDone <==> b.None?
  {
    match b
    case None => SemiDone
    case Some(true) => Done
    case Some(false) => NotDone
  }

  /** `bool?` boxed the way the CLR boxes it: null stays null. */
  function BoxChecked(b: Option<bool>): (r: Boxed)
    ensures r.Null? <==> b.None?
    ensures b.Some? ==> r == BoolValue(b.value)
  {
    match b
    case None => Null
    case Some(v) => BoolValue(v)
  }

  /** `Convert(value)`: unboxes `value` as a `TaskStatus`, which throws on
      null and on any other type, then maps the status to the check box. */
  function BooleanConvert(value: Boxed): (r: Result<Boxed, Exception>)
    ensures value.Null? <==> r == Failure(NullReference)
    ensures !value.Null? && !value.StatusValue? <==> r == Failure(InvalidCast)
    ensures value.StatusValue? ==> r.Success? && (r.value.Null? || r.value.BoolValue?)
  {
    match value
    case Null => Failure(NullReference)
    case StatusValue(s) => Success(BoxChecked(StatusToChecked(s)))
    case _ => Failure(InvalidCast)
  }

  /** `ConvertBack(value)`: null is the third state; anything else is
      unboxed as a `bool`, which throws unless it is one. */
  function BooleanConvertBack(value: Boxed): (r: Result<Boxed, Exception>)
    ensures value.Null? || value.BoolValue? <==> r.Success?
    ensures r.Success? ==> r.value.StatusValue? && r.value.status.Named?
    ensures r.Failure? ==> r.error == InvalidCast
  {
    match value
    case Null => Success(StatusValue(Named(SemiDone)))
    case BoolValue(b) => Success(StatusValue(Named(CheckedToStatus(Some(b)))))
    case _ => Failure(InvalidCast)
  }

  /** Every status survives the trip to the check box and back. */
  lemma StatusRoundTrip(s: Status)
    ensures CheckedToStatus(StatusToChecked(Named(s))) == s
    ensures BooleanConvertBack(BooleanConvert(StatusValue(Named(s))).value) == Success(StatusValue(Named(s)))
  {
  }

  /** Every check-box state survives the trip to a status and back. */
  lemma CheckedRoundTrip(b: Option<bool>)
    ensures StatusToChecked(Named(CheckedToStatus(b))) == b
    ensures BooleanConvert(BooleanConvertBack(BoxChecked(b)).value) == Success(BoxChecked(b))
  {
  }

  // ---------------------------------------------------------------------
  // TaskStatusToTextDecorationConverter

  /** `Convert(value)`: a finished task is struck through, any other status
      has no decoration (null), and a value that is not a status is refused. */
  function DecorationConvert(value: Boxed): (r: Result<Boxed, Exception>)
    ensures !value.StatusValue? <==> r == Failure(Argument("Task Status"))
    ensures value == StatusValue(Named(Done)) <==> r == Success(DecorationsValue(StrikethroughCollection))
    ensures value.StatusValue? && value.status != Named(Done) <==> r == Success(Null)
  {
    if !value.StatusValue? then Failure(Argument("Task Status"))
    else if value.status == Named(Done) then Success(DecorationsValue(StrikethroughCollection))
    else Success(Null)
  }

  /** `ConvertBack(value)`: not supported in either direction. */
  function DecorationConvertBack(value: Boxed): (r: Result<Boxed, Exception>)
    ensures r.Failure? && r.error.NotImplemented?
  {
    Failure(NotImplemented("Task status convert back"))
  }

  /** A decoration shows exactly when the task is finished. */
  lemma DecorationOnlyWhenDone(s: EnumStatus)
    ensures DecorationConvert(StatusValue(s)).Success?
    ensures DecorationConvert(StatusValue(s)).value.DecorationsValue? <==> s == Named(Done)
  {
  }
}
