/** The entities of the toast demo and the rules that turn the form's
    contents into a toast: message defaulting, auto-dismiss duration
    defaulting, and the removal timer a toast arms. */
module Toasts {

  datatype Option<T> = None | Some(value: T)

  /** The five screen corners a toast can be stacked at. */
  datatype Position = BottomRight | BottomLeft | TopRight | TopLeft | TopCenter

  /** The `type` argument of addNewToast: one value per button. */
  datatype ToastType = Success | Error | Warn

  /** The opaque identity a toast is tagged with at creation. */
  type Id = string

  /** An auto-dismiss delay in whole seconds. */
  type Seconds = n: int | n > 0 witness 1

  /** One notification, as stored in the per-position lists. */
  datatype Toast = Toast(id: Id, position: Position, message: string, duration: Option<Seconds>, kind: ToastType)

  /** What the form holds when a toast button is pressed: the typed
      message (possibly empty), the auto-dismiss checkbox, the entered
      duration (None when nothing was entered) and the selected corner. */
  datatype FormData = FormData(message: string, checked: bool, duration: Option<Seconds>, position: Position)

  /** A one-shot removal armed when a toast has a duration: after `delay`
      seconds the toast `id` is filtered out of the list at `position`. */
  datatype Removal = Removal(position: Position, id: Id, delay: Seconds)

  const SuccessMessage: string := "Data fetched successfully"
  const ErrorMessage: string := "Internal server error"
  const InvalidMessage: string := "Invalid data provided"

  /** The text shown on a toast: the typed message when there is one,
      otherwise a default chosen by the toast's type. */
  function ResolveMessage(message: string, kind: ToastType): (r: string)
    ensures r != []
    ensures r == message <==> message != []
    ensures message == [] && kind == Success ==> r == SuccessMessage
    ensures message == [] && kind == Error ==> r == ErrorMessage
    ensures message == [] && kind == Warn ==> r == InvalidMessage
  {
    if message != [] then message
    else if kind == Success then SuccessMessage
    else if kind == Error then ErrorMessage
    else InvalidMessage
  }

  /** The toast's duration: none unless auto-dismiss is checked, and then
      the entered duration, or one second when nothing was entered. */
  function ResolveDuration(checked: bool, entered: Option<Seconds>): (r: Option<Seconds>)
    ensures r.None? <==> !checked
    ensures checked && entered.Some? ==> r == entered
    ensures checked && entered.None? ==> r == Some(1)
  {
    if !checked then None
    else if entered.Some? then entered
    else Some(1)
  }

  /** The toast addNewToast builds from the form, the pressed button's type
      and a freshly generated id. */
  function NewToast(form: FormData, kind: ToastType, id: Id): (t: Toast)
    ensures t.id == id && t.kind == kind
    ensures t.position == form.position
    ensures t.message != []
    ensures t.message == form.message <==> form.message != []
    ensures t.message == ResolveMessage(form.message, kind)
    ensures t.duration.Some? <==> form.checked
    ensures t.duration == ResolveDuration(form.checked, form.duration)
  {
    Toast(id, form.position, ResolveMessage(form.message, kind),
          ResolveDuration(form.checked, form.duration), kind)
  }

  /** The removal a new toast arms: one exactly when it has a duration,
      aimed at the toast's own position and id. */
  function ScheduledRemoval(t: Toast): (r: Option<Removal>)
    ensures r.Some? <==> t.duration.Some?
    ensures r.Some? ==> r.value.position == t.position && r.value.id == t.id
    ensures r.Some? ==> r.value.delay == t.duration.value
  {
    match t.duration
    case None => None
    case Some(d) => Some(Removal(t.position, t.id, d))
  }

  /** A toast made with auto-dismiss unchecked never arms a removal; one
      made with it checked arms a removal after the entered duration, or
      after one second when none was entered. */
  lemma AutoDismissArmsRemoval(form: FormData, kind: ToastType, id: Id)
    ensures var r := ScheduledRemoval(NewToast(form, kind, id));
      && (r.None? <==> !form.checked)
      && (form.checked ==> r.value.delay == (if form.duration.Some? then form.duration.value else 1))
  {
  }
}
