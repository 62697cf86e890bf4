/** The control state held by the view and the two kinds of button action
    (esp32/ContentView.swift:26-27, 41-43, 57-86). Each action updates the
    view state and yields the desired state it hands to the debouncer. */
module Control {

  /** What one request asks the device for: the power flag and the mode. */
  datatype DesiredState = DesiredState(turnOn: bool, mode: int)

  /** The view's own state: `isLedOn` and the stored `mode`. */
  datatype ViewState = ViewState(isLedOn: bool, mode: int)

  /** The three mode buttons. */
  datatype ModeButton = One | Two | Three {
    /** The mode the button assigns. */
    function Value(): (m: int)
      ensures ValidMode(m)
    {
      match this
      case One => 1
      case Two => 2
      case Three => 3
    }
  }

  /** The modes the device offers. */
  predicate ValidMode(m: int) {
    1 <= m <= 3
  }

  /** The stored mode's default, used when nothing was persisted yet. */
  const DefaultMode: int := 1

  /** The view state after a button press, and what the press submits. */
  datatype Action = Action(view: ViewState, submitted: DesiredState)

  /** The desired state a view currently shows. */
  function Shown(v: ViewState): DesiredState {
    DesiredState(v.isLedOn, v.mode)
  }

  /** The power button: flip the flag, then submit the new flag with the
      unchanged mode. */
  function Toggle(v: ViewState): (a: Action)
    ensures a.view.isLedOn != v.isLedOn
    ensures a.view.mode == v.mode
    ensures a.submitted == DesiredState(!v.isLedOn, v.mode)
  {
    var v' := v.(isLedOn := !v.isLedOn);
    Action(v', Shown(v'))
  }

  /** A mode button: set the mode, then submit the unchanged flag with the
      new mode. */
  function SelectMode(v: ViewState, b: ModeButton): (a: Action)
    ensures a.view.isLedOn == v.isLedOn
    ensures a.view.mode == b.Value() && ValidMode(a.view.mode)
    ensures a.submitted == DesiredState(v.isLedOn, b.Value())
  {
    var v' := v.(mode := b.Value());
    Action(v', Shown(v'))
  }

  /** Every press submits exactly the state the view shows afterwards. */
  lemma SubmittedIsShown(v: ViewState, b: ModeButton)
    ensures Toggle(v).submitted == Shown(Toggle(v).view)
    ensures SelectMode(v, b).submitted == Shown(SelectMode(v, b).view)
  {
  }

  /** Pressing the power button twice restores the view. */
  lemma ToggleTwice(v: ViewState)
    ensures Toggle(Toggle(v).view).view == v
  {
  }

  /** Pressing the same mode button twice has the effect of pressing it once. */
  lemma SelectModeIdempotent(v: ViewState, b: ModeButton)
    ensures SelectMode(SelectMode(v, b).view, b) == SelectMode(v, b)
  {
  }
}
