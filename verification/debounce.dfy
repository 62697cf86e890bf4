/** The debouncer behind `sendLedRequestDebounce`
    (esp32/ContentView.swift:29, 107-117), as a state machine over logical
    time in milliseconds. The view owns one slot for a scheduled work item.
    A submit cancels whatever the slot holds, stores a new item that
    captures the submitted state, and schedules it for `now + 500 ms`. The
    main queue runs an item once its deadline has passed. */
module Debounce {
  import opened Wrappers
  import opened Control

  /** The quiet window: `asyncAfter(deadline: .now() + 0.5)`, in ms. */
  const QuietWindow: int := 500

  /** A scheduled work item: the captured state and when it is due. */
  datatype WorkItem = WorkItem(state: DesiredState, deadline: int)

  /** The view's single `workItem` slot. */
  datatype Dispatcher = Dispatcher(slot: Option<WorkItem>)

  /** No work item scheduled. */
  const Idle: Dispatcher := Dispatcher(None)

  /** What the dispatcher observes: a submit from a button action, or the
      clock reaching `now` on the main queue. Both carry their time. */
  datatype Event = Submit(state: DesiredState, now: int) | Advance(now: int)

  /** One step: the dispatcher afterwards and the state sent, if any. */
  datatype StepResult = StepResult(next: Dispatcher, sent: Option<DesiredState>)

  /** A run: the dispatcher at the end and every state sent, in order. */
  datatype RunResult = RunResult(final: Dispatcher, sent: seq<DesiredState>)

  /** The scheduled item is due at time `now`. */
  predicate Due(d: Dispatcher, now: int) {
    d.slot.Some? && d.slot.value.deadline <= now
  }

  /** The main queue at time `now`: a due item runs (handing its captured
      state to the client) and leaves the slot; otherwise nothing happens. */
  function Fire(d: Dispatcher, now: int): (r: StepResult)
    ensures r.sent.Some? <==> Due(d, now)
    ensures r.sent.Some? ==> r.sent.value == d.slot.value.state && r.next == Idle
    ensures r.sent.None? ==> r.next == d
  {
    if Due(d, now) then StepResult(Idle, Some(d.slot.value.state)) else StepResult(d, None)
  }

  /** One event. A submit first lets a due item run (assuming the main
      queue ran it before the button action; see README, Left out), then
      cancels the slot's item and schedules the new one. */
  function Step(d: Dispatcher, e: Event): (r: StepResult)
    ensures e.Submit? ==> r.next == Dispatcher(Some(WorkItem(e.state, e.now + QuietWindow)))
    ensures r.sent.Some? <==> Due(d, e.now)
    ensures r.sent.Some? ==> r.sent.value == d.slot.value.state
    ensures e.Advance? && r.sent.None? ==> r.next == d
    ensures e.Advance? && r.sent.Some? ==> r.next == Idle
  {
    var f := Fire(d, e.now);
    match e
    case Submit(s, now) => StepResult(Dispatcher(Some(WorkItem(s, now + QuietWindow))), f.sent)
    case Advance(_) => f
  }

  /** The number of submits in `trace`. */
  function SubmitCount(trace: seq<Event>): nat {
    if trace == [] then 0 else (if trace[0].Submit? then 1 else 0) + SubmitCount(trace[1..])
  }

  /** The state `d` has scheduled, as a set. */
  function Scheduled(d: Dispatcher): set<DesiredState> {
    if d.slot.Some? then {d.slot.value.state} else {}
  }

  /** Feed `trace` to the dispatcher `d` one event at a time. Only submitted
      states are ever sent, and no more of them than were submitted. */
  function Run(d: Dispatcher, trace: seq<Event>): (r: RunResult)
    ensures |r.sent| <= SubmitCount(trace) + |Scheduled(d)|
    ensures forall k :: 0 <= k < |r.sent| ==>
      r.sent[k] in Scheduled(d) || exists i :: 0 <= i < |trace| && trace[i] == Submit(r.sent[k], trace[i].now)
    decreases |trace|
  {
    if trace == [] then RunResult(d, [])
    else
      var s := Step(d, trace[0]);
      var rest := Run(s.next, trace[1..]);
      var r := RunResult(rest.final, ToSeq(s.sent) + rest.sent);
      assert forall k :: 0 <= k < |rest.sent| ==> r.sent[|ToSeq(s.sent)| + k] == rest.sent[k];
      assert forall i :: 0 <= i < |trace[1..]| ==> trace[1..][i] == trace[i + 1];
      r
  }

  // ---------------------------------------------------------------------
  // Reference definition: which submits are sent, stated on the trace alone.
  // ---------------------------------------------------------------------

  /** No submit occurs at an index in `[from, to)`. */
  ghost predicate NoSubmitBetween(trace: seq<Event>, from: int, to: int) {
    forall k :: from <= k < to && 0 <= k < |trace| ==> !trace[k].Submit?
  }

  /** Some event at index `from` or later reaches `deadline` before any
      newer submit has cancelled the item (the reaching event may itself be
      a submit: the item runs before the submit replaces it). */
  ghost predicate Reaches(trace: seq<Event>, from: nat, deadline: int) {
    exists j :: from <= j < |trace| && trace[j].now >= deadline && NoSubmitBetween(trace, from, j)
  }

  /** The submit at index `i` is eventually sent. */
  ghost predicate Survives(trace: seq<Event>, i: nat)
    requires i < |trace|
  {
    trace[i].Submit? && Reaches(trace, i + 1, trace[i].now + QuietWindow)
  }

  /** The states of the surviving submits at index `i` or later, in order. */
  ghost function Surviving(trace: seq<Event>, i: nat): seq<DesiredState>
    requires i <= |trace|
    decreases |trace| - i
  {
    if i == |trace| then []
    else (if Survives(trace, i) then [trace[i].state] else []) + Surviving(trace, i + 1)
  }

  /** The states of all submits at index `i` or later, in order. */
  ghost function Submitted(trace: seq<Event>, i: nat): seq<DesiredState>
    requires i <= |trace|
    decreases |trace| - i
  {
    if i == |trace| then []
    else (if trace[i].Submit? then [trace[i].state] else []) + Submitted(trace, i + 1)
  }

  /** What an already scheduled item contributes: its state, if some event
      from index `i` on reaches its deadline before the next submit. */
  ghost function PendingPart(d: Dispatcher, trace: seq<Event>, i: nat): seq<DesiredState>
    requires i <= |trace|
  {
    if d.slot.Some? && Reaches(trace, i, d.slot.value.deadline) then [d.slot.value.state] else []
  }

  /** An event that is neither a submit nor at the deadline does not change
      whether the deadline is reached. */
  lemma ReachesSkip(trace: seq<Event>, i: nat, deadline: int)
    requires i < |trace| && !trace[i].Submit? && trace[i].now < deadline
    ensures Reaches(trace, i, deadline) <==> Reaches(trace, i + 1, deadline)
  {
    if Reaches(trace, i, deadline) {
      var j :| i <= j < |trace| && trace[j].now >= deadline && NoSubmitBetween(trace, i, j);
      assert i + 1 <= j && NoSubmitBetween(trace, i + 1, j);
    }
    if Reaches(trace, i + 1, deadline) {
      var j :| i + 1 <= j < |trace| && trace[j].now >= deadline && NoSubmitBetween(trace, i + 1, j);
      assert NoSubmitBetween(trace, i, j);
    }
  }

  /** A submit below the deadline blocks the deadline from being reached. */
  lemma ReachesBlocked(trace: seq<Event>, i: nat, deadline: int)
    requires i < |trace| && trace[i].Submit? && trace[i].now < deadline
    ensures !Reaches(trace, i, deadline)
  {
    forall j | i <= j < |trace|
      ensures !(trace[j].now >= deadline && NoSubmitBetween(trace, i, j))
    {
      if j > i {
        assert trace[i].Submit?;
      }
    }
  }

  /** Running the suffix from index `i` sends exactly the pending item (if it
      is reached) followed by the surviving submits. */
  lemma {:induction false} RunFrom(d: Dispatcher, trace: seq<Event>, i: nat)
    requires i <= |trace|
    ensures Run(d, trace[i..]).sent == PendingPart(d, trace, i) + Surviving(trace, i)
    decreases |trace| - i
  {
    if i == |trace| {
      assert trace[i..] == [];
    } else {
      var e := trace[i];
      assert trace[i..][0] == e && trace[i..][1..] == trace[i + 1..];
      var s := Step(d, e);
      RunFrom(s.next, trace, i + 1);
      if Due(d, e.now) {
        assert trace[i].now >= d.slot.value.deadline && NoSubmitBetween(trace, i, i);
        assert Reaches(trace, i, d.slot.value.deadline);
        if e.Advance? {
          assert PendingPart(s.next, trace, i + 1) == [];
        }
      } else {
        if d.slot.Some? {
          if e.Submit? {
            ReachesBlocked(trace, i, d.slot.value.deadline);
          } else {
            ReachesSkip(trace, i, d.slot.value.deadline);
          }
        }
      }
    }
  }

  /** From an idle dispatcher, a run sends exactly the surviving submits:
      each submit is sent iff some later event reaches its deadline before
      any newer submit, and the sends come in submit order. */
  lemma RunIsSurviving(trace: seq<Event>)
    ensures Run(Idle, trace).sent == Surviving(trace, 0)
  {
    RunFrom(Idle, trace, 0);
    assert trace[0..] == trace;
  }

  // ---------------------------------------------------------------------
  // Consequences: cancellation, coalescing, separation, capture.
  // ---------------------------------------------------------------------

  /** Event times never decrease along the trace. */
  ghost predicate Monotone(trace: seq<Event>) {
    forall a, b :: 0 <= a <= b < |trace| ==> trace[a].now <= trace[b].now
  }

  /** A submit followed, less than the quiet window later, by another submit
      is cancelled: it is never sent. */
  lemma CancelledNeverFires(trace: seq<Event>, i: nat, k: nat)
    requires Monotone(trace)
    requires i < k < |trace| && trace[i].Submit? && trace[k].Submit?
    requires trace[k].now < trace[i].now + QuietWindow
    ensures !Survives(trace, i)
  {
    forall j | i + 1 <= j < |trace|
      ensures !(trace[j].now >= trace[i].now + QuietWindow && NoSubmitBetween(trace, i + 1, j))
    {
      if j > k {
        assert trace[k].Submit?;
      } else {
        assert trace[j].now <= trace[k].now;
      }
    }
  }

  /** Between a submit at `i` and a later one at `l` lies a first submit
      after `i`. */
  lemma NextSubmit(trace: seq<Event>, i: nat, l: nat) returns (k: nat)
    requires i < l < |trace| && trace[l].Submit?
    ensures i < k <= l && trace[k].Submit? && NoSubmitBetween(trace, i + 1, k)
    decreases l
  {
    if NoSubmitBetween(trace, i + 1, l) {
      k := l;
    } else {
      var m :| i + 1 <= m < l && trace[m].Submit?;
      k := NextSubmit(trace, i, m);
    }
  }

  /** Consecutive submits are closer together than the quiet window. */
  ghost predicate Bursty(trace: seq<Event>) {
    forall i, k :: 0 <= i < k < |trace| && trace[i].Submit? && trace[k].Submit? && NoSubmitBetween(trace, i + 1, k)
      ==> trace[k].now < trace[i].now + QuietWindow
  }

  /** Consecutive submits are at least the quiet window apart. */
  ghost predicate Spaced(trace: seq<Event>) {
    forall i, k :: 0 <= i < k < |trace| && trace[i].Submit? && trace[k].Submit? && NoSubmitBetween(trace, i + 1, k)
      ==> trace[k].now >= trace[i].now + QuietWindow
  }

  /** No submit before the last one survives, when the submits come in a
      burst. */
  lemma BurstCancelsEarlier(trace: seq<Event>, last: nat)
    requires Monotone(trace) && Bursty(trace)
    requires last < |trace| && trace[last].Submit?
    ensures forall i :: 0 <= i < last ==> !Survives(trace, i)
  {
    forall i | 0 <= i < last && trace[i].Submit?
      ensures !Survives(trace, i)
    {
      var k := NextSubmit(trace, i, last);
      CancelledNeverFires(trace, i, k);
    }
  }

  /** Submits that do not survive add nothing to the surviving list. */
  lemma {:induction false} SkipCancelled(trace: seq<Event>, i: nat, last: nat)
    requires i <= last <= |trace|
    requires forall m :: i <= m < last ==> !Survives(trace, m)
    ensures Surviving(trace, i) == Surviving(trace, last)
    decreases last - i
  {
    if i < last {
      SkipCancelled(trace, i + 1, last);
      SurvivingStep(trace, i);
    }
  }

  /** One step of the surviving and submitted lists. */
  lemma SurvivingStep(trace: seq<Event>, i: nat)
    requires i < |trace|
    ensures Surviving(trace, i) == (if Survives(trace, i) then [trace[i].state] else []) + Surviving(trace, i + 1)
    ensures Submitted(trace, i) == (if trace[i].Submit? then [trace[i].state] else []) + Submitted(trace, i + 1)
  {
  }

  /** After the last submit nothing more is sent. */
  lemma {:induction false} QuietTail(trace: seq<Event>, i: nat)
    requires i <= |trace| && NoSubmitBetween(trace, i, |trace|)
    ensures Surviving(trace, i) == []
    decreases |trace| - i
  {
    if i < |trace| {
      QuietTail(trace, i + 1);
    }
  }

  /** The surviving submits of a burst: the last one, if its deadline is
      reached, and nothing else. */
  lemma BurstResult(trace: seq<Event>, last: nat)
    requires Monotone(trace) && Bursty(trace)
    requires last < |trace| && trace[last].Submit? && NoSubmitBetween(trace, last + 1, |trace|)
    ensures Surviving(trace, 0)
      == if Reaches(trace, last + 1, trace[last].now + QuietWindow) then [trace[last].state] else []
  {
    BurstCancelsEarlier(trace, last);
    SkipCancelled(trace, 0, last);
    LastSurviving(trace, last);
  }

  /** The last submit survives alone: it is followed by no other submit. */
  lemma LastSurviving(trace: seq<Event>, last: nat)
    requires last < |trace| && trace[last].Submit? && NoSubmitBetween(trace, last + 1, |trace|)
    ensures Surviving(trace, last)
      == if Reaches(trace, last + 1, trace[last].now + QuietWindow) then [trace[last].state] else []
  {
    QuietTail(trace, last + 1);
    SurvivingStep(trace, last);
    var head := if Survives(trace, last) then [trace[last].state] else [];
    assert Surviving(trace, last) == head + [] == head;
  }

  /** Coalescing: when consecutive submits are less than the quiet window
      apart, at most one state is sent, and it is the last one submitted.
      It is sent exactly when some event after the last submit reaches that
      submit's deadline. */
  lemma Coalescing(trace: seq<Event>, last: nat)
    requires Monotone(trace) && Bursty(trace)
    requires last < |trace| && trace[last].Submit? && NoSubmitBetween(trace, last + 1, |trace|)
    ensures Run(Idle, trace).sent == [] || Run(Idle, trace).sent == [trace[last].state]
    ensures Run(Idle, trace).sent == [trace[last].state]
      <==> Reaches(trace, last + 1, trace[last].now + QuietWindow)
  {
    RunIsSurviving(trace);
    BurstResult(trace, last);
  }

  /** A submit whose next submit comes at least the quiet window later
      survives: that next submit reaches its deadline. */
  lemma SurvivesBeforeNext(trace: seq<Event>, i: nat, k: nat)
    requires Spaced(trace)
    requires i < k < |trace| && trace[i].Submit? && trace[k].Submit? && NoSubmitBetween(trace, i + 1, k)
    ensures Survives(trace, i)
  {
    var deadline := trace[i].now + QuietWindow;
    assert trace[k].now >= deadline;
    assert i + 1 <= k < |trace| && trace[k].now >= deadline && NoSubmitBetween(trace, i + 1, k);
    assert Reaches(trace, i + 1, deadline);
  }

  /** Every submit survives when the submits are spaced and the last one's
      deadline is reached. */
  lemma {:induction false} SpacedSurviving(trace: seq<Event>, i: nat, last: nat)
    requires Spaced(trace)
    requires i <= last < |trace| && trace[last].Submit? && NoSubmitBetween(trace, last + 1, |trace|)
    requires Reaches(trace, last + 1, trace[last].now + QuietWindow)
    ensures Surviving(trace, i) == Submitted(trace, i)
    decreases last - i
  {
    if i == last {
      QuietTail(trace, last + 1);
      QuietTailSubmitted(trace, last + 1);
      assert Survives(trace, last);
    } else {
      SpacedSurviving(trace, i + 1, last);
      if trace[i].Submit? {
        var k := NextSubmit(trace, i, last);
        SurvivesBeforeNext(trace, i, k);
      }
    }
    SurvivingStep(trace, i);
  }

  /** After the last submit nothing more is submitted. */
  lemma {:induction false} QuietTailSubmitted(trace: seq<Event>, i: nat)
    requires i <= |trace| && NoSubmitBetween(trace, i, |trace|)
    ensures Submitted(trace, i) == []
    decreases |trace| - i
  {
    if i < |trace| {
      QuietTailSubmitted(trace, i + 1);
    }
  }

  /** Separation: when consecutive submits are at least the quiet window
      apart and some event after the last submit reaches its deadline,
      every submitted state is sent, in submit order. */
  lemma Separation(trace: seq<Event>, last: nat)
    requires Spaced(trace)
    requires last < |trace| && trace[last].Submit? && NoSubmitBetween(trace, last + 1, |trace|)
    requires Reaches(trace, last + 1, trace[last].now + QuietWindow)
    ensures Run(Idle, trace).sent == Submitted(trace, 0)
  {
    RunIsSurviving(trace);
    SpacedSurviving(trace, 0, last);
  }

  /** A scheduled item sends the state captured when it was submitted: with
      no newer submit, whatever the later events, only that state can be
      sent. */
  lemma {:induction false} CapturedAtSubmit(s: DesiredState, deadline: int, trace: seq<Event>)
    requires forall k :: 0 <= k < |trace| ==> trace[k].Advance?
    ensures Run(Dispatcher(Some(WorkItem(s, deadline))), trace).sent == []
      || Run(Dispatcher(Some(WorkItem(s, deadline))), trace).sent == [s]
    decreases |trace|
  {
    var d := Dispatcher(Some(WorkItem(s, deadline)));
    if trace != [] {
      var st := Step(d, trace[0]);
      assert forall k :: 0 <= k < |trace[1..]| ==> trace[1..][k] == trace[k + 1];
      if st.sent.Some? {
        IdleAdvances(trace[1..]);
      } else {
        CapturedAtSubmit(s, deadline, trace[1..]);
      }
    }
  }

  /** With nothing scheduled and no submits, nothing is sent. */
  lemma {:induction false} IdleAdvances(trace: seq<Event>)
    requires forall k :: 0 <= k < |trace| ==> trace[k].Advance?
    ensures Run(Idle, trace).sent == []
    decreases |trace|
  {
    if trace != [] {
      assert forall k :: 0 <= k < |trace[1..]| ==> trace[1..][k] == trace[k + 1];
      IdleAdvances(trace[1..]);
    }
  }
}
