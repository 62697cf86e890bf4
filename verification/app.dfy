/** The view as a whole (esp32/ContentView.swift:24-117): its control state,
    its work-item slot, and the user's presses interleaved with the clock.
    Every press updates the view and submits the resulting desired state to
    the debouncer; the clock lets a due work item run. */
module App {
  import opened Wrappers
  import opened Control
  import opened Debounce

  /** What happens to the view: a press of the power button, a press of a
      mode button, or the clock reaching `now`. */
  datatype UserEvent = PowerPressed(now: int) | ModePressed(button: ModeButton, now: int) | Tick(now: int)

  /** The view's state together with its work-item slot. */
  datatype AppState = AppState(view: ViewState, dispatcher: Dispatcher)

  datatype AppStepResult = AppStepResult(next: AppState, sent: Option<DesiredState>)

  datatype AppRunResult = AppRunResult(final: AppState, sent: seq<DesiredState>)

  /** The view as it starts, with `storedMode` read from storage. */
  function Launch(storedMode: int): (a: AppState)
    ensures a.view == ViewState(false, storedMode) && a.dispatcher == Idle
  {
    AppState(ViewState(false, storedMode), Idle)
  }

  /** The debouncer event a user event becomes, seen from view `v`. */
  function ToDispatcherEvent(v: ViewState, e: UserEvent): (d: Event)
    ensures d.now == e.now
  {
    match e
    case PowerPressed(now) => Submit(Toggle(v).submitted, now)
    case ModePressed(b, now) => Submit(SelectMode(v, b).submitted, now)
    case Tick(now) => Advance(now)
  }

  /** The view after a user event. */
  function NextView(v: ViewState, e: UserEvent): ViewState {
    match e
    case PowerPressed(_) => Toggle(v).view
    case ModePressed(b, _) => SelectMode(v, b).view
    case Tick(_) => v
  }

  /** One user event: update the view, then feed the debouncer. */
  function AppStep(a: AppState, e: UserEvent): (r: AppStepResult)
    ensures e.PowerPressed? ==> r.next.dispatcher.slot == Some(WorkItem(DesiredState(!a.view.isLedOn, a.view.mode), e.now + QuietWindow))
    ensures e.ModePressed? ==> r.next.dispatcher.slot == Some(WorkItem(DesiredState(a.view.isLedOn, e.button.Value()), e.now + QuietWindow))
    ensures e.PowerPressed? ==> r.next.view == ViewState(!a.view.isLedOn, a.view.mode)
    ensures e.ModePressed? ==> r.next.view == ViewState(a.view.isLedOn, e.button.Value())
    ensures e.Tick? ==> r.next.view == a.view
    ensures e.Tick? ==> r.next.dispatcher == (if r.sent.Some? then Idle else a.dispatcher)
    ensures r.sent.Some? <==> Due(a.dispatcher, e.now)
    ensures r.sent.Some? ==> a.dispatcher.slot.Some? && r.sent.value == a.dispatcher.slot.value.state
  {
    var s := Step(a.dispatcher, ToDispatcherEvent(a.view, e));
    AppStepResult(AppState(NextView(a.view, e), s.next), s.sent)
  }

  /** Feed the user events one by one. Each event sends at most once. */
  function AppRun(a: AppState, trace: seq<UserEvent>): (r: AppRunResult)
    ensures |r.sent| <= |trace|
    decreases |trace|
  {
    if trace == [] then AppRunResult(a, [])
    else
      var s := AppStep(a, trace[0]);
      var rest := AppRun(s.next, trace[1..]);
      AppRunResult(rest.final, ToSeq(s.sent) + rest.sent)
  }

  /** The debouncer events a run of user events produces, starting at view
      `v`: one per user event, at the same time. */
  function DispatcherTrace(v: ViewState, trace: seq<UserEvent>): (t: seq<Event>)
    ensures |t| == |trace|
    ensures forall k :: 0 <= k < |t| ==> t[k].now == trace[k].now && (t[k].Submit? <==> !trace[k].Tick?)
    decreases |trace|
  {
    if trace == [] then []
    else [ToDispatcherEvent(v, trace[0])] + DispatcherTrace(NextView(v, trace[0]), trace[1..])
  }

  /** A run of the view sends exactly what its debouncer sends on the
      derived event trace, so every debouncer theorem applies to it. */
  lemma {:induction false} AppRunIsDispatcherRun(a: AppState, trace: seq<UserEvent>)
    ensures AppRun(a, trace).sent == Run(a.dispatcher, DispatcherTrace(a.view, trace)).sent
    decreases |trace|
  {
    if trace != [] {
      var s := AppStep(a, trace[0]);
      AppRunIsDispatcherRun(s.next, trace[1..]);
      var t := DispatcherTrace(a.view, trace);
      assert t[0] == ToDispatcherEvent(a.view, trace[0]);
      assert t[1..] == DispatcherTrace(NextView(a.view, trace[0]), trace[1..]);
    }
  }

  /** The view and its pending item show valid modes. */
  predicate ModesValid(a: AppState) {
    ValidMode(a.view.mode) && (a.dispatcher.slot.Some? ==> ValidMode(a.dispatcher.slot.value.state.mode))
  }

  /** Starting from a valid mode (the default is 1), the view's mode stays
      1, 2 or 3, and so does the mode of every request sent. */
  lemma {:induction false} ModesStayValid(a: AppState, trace: seq<UserEvent>)
    requires ModesValid(a)
    ensures ModesValid(AppRun(a, trace).final)
    ensures forall k :: 0 <= k < |AppRun(a, trace).sent| ==> ValidMode(AppRun(a, trace).sent[k].mode)
    decreases |trace|
  {
    if trace != [] {
      var s := AppStep(a, trace[0]);
      assert ModesValid(s.next);
      ModesStayValid(s.next, trace[1..]);
      var rest := AppRun(s.next, trace[1..]);
      assert AppRun(a, trace).sent == ToSeq(s.sent) + rest.sent;
    }
  }

  /** From launch with the default mode, every sent request has mode 1, 2
      or 3. */
  lemma DefaultLaunchSendsValidModes(trace: seq<UserEvent>)
    ensures forall k :: 0 <= k < |AppRun(Launch(DefaultMode), trace).sent| ==>
      ValidMode(AppRun(Launch(DefaultMode), trace).sent[k].mode)
  {
    ModesStayValid(Launch(DefaultMode), trace);
  }

  /** Once any mode button has been pressed the mode is valid, whatever
      value storage held. */
  lemma {:induction false} ModeValidAfterModePress(a: AppState, trace: seq<UserEvent>, i: nat)
    requires i < |trace| && trace[i].ModePressed?
    ensures ValidMode(AppRun(a, trace).final.view.mode)
    decreases |trace|
  {
    var s := AppStep(a, trace[0]);
    if i == 0 {
      assert ValidMode(s.next.view.mode);
      ValidModeKept(s.next, trace[1..]);
    } else {
      ModeValidAfterModePress(s.next, trace[1..], i - 1);
    }
  }

  /** A valid view mode stays valid, whatever the pending item holds. */
  lemma {:induction false} ValidModeKept(a: AppState, trace: seq<UserEvent>)
    requires ValidMode(a.view.mode)
    ensures ValidMode(AppRun(a, trace).final.view.mode)
    decreases |trace|
  {
    if trace != [] {
      ValidModeKept(AppStep(a, trace[0]).next, trace[1..]);
    }
  }

  /** A work item that runs sends what it captured when it was scheduled,
      not what the view shows when it runs. */
  lemma FireIgnoresView(v1: ViewState, v2: ViewState, d: Dispatcher, now: int)
    ensures AppStep(AppState(v1, d), Tick(now)).sent == AppStep(AppState(v2, d), Tick(now)).sent
    ensures AppStep(AppState(v1, d), Tick(now)).sent.Some? ==>
      AppStep(AppState(v1, d), Tick(now)).sent.value == d.slot.value.state
  {
  }
}
