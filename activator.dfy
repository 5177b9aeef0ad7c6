/** A model of the `ContinuousLearningActivator` plugin: an idle-event handler
    that reminds the user to run /retrospective, at most once per cooldown
    window.

    The handler keeps one mutable timestamp, `lastFiredAt` (initially 0).  For
    each incoming event it ignores everything but "session.idle", suppresses an
    idle event that arrives less than `Cooldown` milliseconds after the last
    reminder, and otherwise commits `lastFiredAt := now` and dispatches exactly
    one reminder, chosen by the plugin's static `MODE`.

    The clock read is the parameter `now`; no monotonicity of the clock is
    assumed anywhere.  The host's dispatch calls are modelled by the `Action`
    value the handler selects, not by their effect.
 */
module ContinuousLearningActivator {

  /** The one event type the handler reacts to. */
  const SessionIdle: string := "session.idle"

  /** Minimum distance, in milliseconds, between two dispatched reminders. */
  const Cooldown: int := 1500

  /** The value of `lastFiredAt` before any reminder was dispatched. */
  const InitialLastFiredAt: int := 0

  /** The mode value that selects appending to the prompt; any other mode shows a toast. */
  const AppendMode: string := "append"

  /** The mode the plugin ships with. */
  const ShippedMode: string := "toast"

  const AppendText: string :=
    "\n\n[Learning checkpoint] If we discovered a non-obvious fix/workaround/pattern, run /retrospective to save it as a skill."

  const ToastMessage: string :=
    "Continuous learning: if we learned something non-obvious, run /retrospective to save it as a skill."

  const InfoVariant: string := "info"

  /** An event delivered by the host, reduced to its `type` field. */
  datatype Event = Event(eventType: string)

  /** What the handler asks the host to do in response to one event. */
  datatype Action =
    | NoAction
    | Toast(message: string, variant: string)
    | Append(text: string)

  /** The handler's new timestamp together with the action it dispatched. */
  datatype Transition = Transition(lastFiredAt: int, action: Action)

  /** One call of the handler: the event and the clock reading taken for it. */
  datatype Call = Call(ev: Event, now: int)

  /** The handler's timestamp after a series of calls and the action of each call. */
  datatype Trace = Trace(lastFiredAt: int, actions: seq<Action>)

  predicate IsIdle(ev: Event) {
    ev.eventType == SessionIdle
  }

  /** The intended firing rule: an idle event at least a full cooldown after
      the last reminder (the boundary itself included). */
  predicate Fires(last: int, ev: Event, now: int) {
    IsIdle(ev) && now >= last + Cooldown
  }

  /** The reminder dispatched for a fired event, chosen by the static mode. */
  function Reminder(mode: string): (a: Action)
    ensures a != NoAction
    ensures a.Append? <==> mode == AppendMode
    ensures a.Append? ==> a.text == AppendText
    ensures a.Toast? ==> a.message == ToastMessage && a.variant == InfoVariant
  {
    if mode == AppendMode then Append(AppendText) else Toast(ToastMessage, InfoVariant)
  }

  /** One call of the handler, as a function of the timestamp before it. */
  function Step(mode: string, last: int, ev: Event, now: int): (t: Transition)
    ensures t.action != NoAction <==> Fires(last, ev, now)
    ensures t.action == NoAction ==> t.lastFiredAt == last
    ensures t.action != NoAction ==> t.lastFiredAt == now && t.action == Reminder(mode)
  {
    if ev.eventType != SessionIdle then Transition(last, NoAction)
    else if now - last < Cooldown then Transition(last, NoAction)
    else Transition(now, Reminder(mode))
  }

  /** A series of calls of the handler, starting from timestamp `last`. */
  function Run(mode: string, last: int, calls: seq<Call>): (t: Trace)
    ensures |t.actions| == |calls|
    decreases |calls|
  {
    if calls == [] then Trace(last, [])
    else
      var s := Step(mode, last, calls[0].ev, calls[0].now);
      var rest := Run(mode, s.lastFiredAt, calls[1..]);
      Trace(rest.lastFiredAt, [s.action] + rest.actions)
  }

  /** The clock readings of the calls that dispatched a reminder, in call order. */
  function Fired(calls: seq<Call>, actions: seq<Action>): (times: seq<int>)
    requires |calls| == |actions|
    ensures forall t :: t in times ==>
              exists i :: 0 <= i < |calls| && calls[i].now == t && actions[i] != NoAction
    decreases |calls|
  {
    if calls == [] then []
    else (if actions[0] != NoAction then [calls[0].now] else []) + Fired(calls[1..], actions[1..])
  }

  /** Every two neighbours in `times` are at least a cooldown apart. */
  predicate Spaced(times: seq<int>) {
    forall i :: 0 < i < |times| ==> times[i] - times[i - 1] >= Cooldown
  }

  function Last(times: seq<int>): int
    requires times != []
  {
    times[|times| - 1]
  }

  lemma SpacedCons(first: int, times: seq<int>)
    requires Spaced(times)
    requires times != [] ==> times[0] - first >= Cooldown
    ensures Spaced([first] + times)
  {
  }

  /** The run of a non-empty series unfolds into its first step and the run of the rest. */
  lemma RunUnfold(mode: string, last: int, calls: seq<Call>)
    requires calls != []
    ensures var s := Step(mode, last, calls[0].ev, calls[0].now);
            var rest := Run(mode, s.lastFiredAt, calls[1..]);
            Run(mode, last, calls).lastFiredAt == rest.lastFiredAt &&
            Run(mode, last, calls).actions[0] == s.action &&
            Run(mode, last, calls).actions[1..] == rest.actions
  {
  }

  /** Over any series of calls, with any clock readings, the dispatched
      reminders are at least a cooldown apart, and the first one is at least a
      cooldown after the starting timestamp. */
  lemma {:induction false} RunSpaced(mode: string, last: int, calls: seq<Call>)
    ensures Spaced([last] + Fired(calls, Run(mode, last, calls).actions))
    decreases |calls|
  {
    if calls != [] {
      var s := Step(mode, last, calls[0].ev, calls[0].now);
      var rest := Run(mode, s.lastFiredAt, calls[1..]);
      RunUnfold(mode, last, calls);
      RunSpaced(mode, s.lastFiredAt, calls[1..]);
      var later := Fired(calls[1..], rest.actions);
      if s.action != NoAction {
        assert Fired(calls, Run(mode, last, calls).actions) == [calls[0].now] + later;
        SpacedCons(last, [calls[0].now] + later);
      } else {
        assert Fired(calls, Run(mode, last, calls).actions) == later;
      }
    }
  }

  /** After any series of calls the handler's timestamp is the time of the
      most recent reminder, or the starting timestamp when none fired. */
  lemma {:induction false} RunTimestampIsLastFire(mode: string, last: int, calls: seq<Call>)
    ensures Run(mode, last, calls).lastFiredAt == Last([last] + Fired(calls, Run(mode, last, calls).actions))
    decreases |calls|
  {
    if calls != [] {
      var s := Step(mode, last, calls[0].ev, calls[0].now);
      var rest := Run(mode, s.lastFiredAt, calls[1..]);
      RunUnfold(mode, last, calls);
      RunTimestampIsLastFire(mode, s.lastFiredAt, calls[1..]);
      var later := Fired(calls[1..], rest.actions);
      if s.action != NoAction {
        assert Fired(calls, Run(mode, last, calls).actions) == [calls[0].now] + later;
        assert Last([last] + ([calls[0].now] + later)) == Last([calls[0].now] + later);
      } else {
        assert Fired(calls, Run(mode, last, calls).actions) == later;
        if later != [] {
          assert Last([last] + later) == Last([s.lastFiredAt] + later);
        }
      }
    }
  }

  /** Calls that do not fire against the current timestamp (other event
      types, or idle events within the cooldown, including clock readings
      earlier than the timestamp) change nothing, however many of them come. */
  lemma {:induction false} SuppressedCallsChangeNothing(mode: string, last: int, calls: seq<Call>)
    requires forall i :: 0 <= i < |calls| ==> !Fires(last, calls[i].ev, calls[i].now)
    ensures Run(mode, last, calls) == Trace(last, seq(|calls|, _ => NoAction))
  {
    if calls != [] {
      RunUnfold(mode, last, calls);
      SuppressedCallsChangeNothing(mode, last, calls[1..]);
      assert Run(mode, last, calls).actions == [NoAction] + seq(|calls| - 1, _ => NoAction);
    }
  }

  /** Each call dispatches nothing or exactly the mode's reminder. */
  lemma {:induction false} RunDispatchesOnlyReminder(mode: string, last: int, calls: seq<Call>)
    ensures forall a :: a in Run(mode, last, calls).actions ==> a == NoAction || a == Reminder(mode)
    decreases |calls|
  {
    if calls != [] {
      var s := Step(mode, last, calls[0].ev, calls[0].now);
      RunUnfold(mode, last, calls);
      RunDispatchesOnlyReminder(mode, s.lastFiredAt, calls[1..]);
      var acts := Run(mode, last, calls).actions;
      assert acts == [acts[0]] + acts[1..];
    }
  }

  /** With the shipped mode only info toasts with the fixed message are ever dispatched. */
  lemma ShippedModeOnlyToasts(last: int, calls: seq<Call>)
    ensures forall a :: a in Run(ShippedMode, last, calls).actions ==>
              a == NoAction || a == Toast(ToastMessage, InfoVariant)
  {
    RunDispatchesOnlyReminder(ShippedMode, last, calls);
  }

  /** Because the timestamp starts at 0, the first idle event fires exactly
      when its clock reading is at least a cooldown. */
  lemma FirstIdleFiresIff(mode: string, now: int)
    ensures Step(mode, InitialLastFiredAt, Event(SessionIdle), now).action != NoAction <==> now >= Cooldown
  {
  }

  /** The boundary is inclusive: exactly one cooldown after the last reminder
      fires, one millisecond earlier does not. */
  lemma CooldownBoundaryInclusive(mode: string, last: int)
    ensures Step(mode, last, Event(SessionIdle), last + Cooldown) == Transition(last + Cooldown, Reminder(mode))
    ensures Step(mode, last, Event(SessionIdle), last + Cooldown - 1) == Transition(last, NoAction)
  {
  }

  /** The timestamp is committed as part of the decision, not after the
      dispatch: whatever becomes of the dispatched reminder, a following idle
      event within the cooldown is suppressed. */
  lemma FireSuppressesFollowUp(mode: string, last: int, ev: Event, now: int, next: Event, later: int)
    requires Fires(last, ev, now)
    requires later - now < Cooldown
    ensures Step(mode, Step(mode, last, ev, now).lastFiredAt, next, later) == Transition(now, NoAction)
  {
  }

  /** With the timestamp starting at 0, idle events at 0, 1000 and 1600 give
      suppressed, suppressed, reminder. */
  lemma ScenarioFromZero(mode: string)
    ensures Run(mode, InitialLastFiredAt,
                [Call(Event(SessionIdle), 0), Call(Event(SessionIdle), 1000), Call(Event(SessionIdle), 1600)]).actions
            == [NoAction, NoAction, Reminder(mode)]
  {
    var calls := [Call(Event(SessionIdle), 0), Call(Event(SessionIdle), 1000), Call(Event(SessionIdle), 1600)];
    RunUnfold(mode, InitialLastFiredAt, calls);
    RunUnfold(mode, InitialLastFiredAt, calls[1..]);
    RunUnfold(mode, InitialLastFiredAt, calls[2..]);
  }

  /** At real clock readings (at least a cooldown after 0): idle events at
      t, t + 1000 and t + 1600 give reminder, suppressed, reminder, and
      t, t + 1500 give two reminders. */
  lemma ScenarioWallClock(mode: string, t: int)
    requires t >= Cooldown
    ensures Run(mode, InitialLastFiredAt,
                [Call(Event(SessionIdle), t), Call(Event(SessionIdle), t + 1000), Call(Event(SessionIdle), t + 1600)]).actions
            == [Reminder(mode), NoAction, Reminder(mode)]
    ensures Run(mode, InitialLastFiredAt,
                [Call(Event(SessionIdle), t), Call(Event(SessionIdle), t + 1500)]).actions
            == [Reminder(mode), Reminder(mode)]
  {
    var calls := [Call(Event(SessionIdle), t), Call(Event(SessionIdle), t + 1000), Call(Event(SessionIdle), t + 1600)];
    RunUnfold(mode, InitialLastFiredAt, calls);
    RunUnfold(mode, t, calls[1..]);
    RunUnfold(mode, t, calls[2..]);
    var pair := [Call(Event(SessionIdle), t), Call(Event(SessionIdle), t + 1500)];
    RunUnfold(mode, InitialLastFiredAt, pair);
    RunUnfold(mode, t, pair[1..]);
  }

  /** A burst of idle events 100 ms apart dispatches only the first reminder. */
  lemma ScenarioBurst(mode: string, t: int)
    requires t >= Cooldown
    ensures Run(mode, InitialLastFiredAt,
                [Call(Event(SessionIdle), t), Call(Event(SessionIdle), t + 100),
                 Call(Event(SessionIdle), t + 200), Call(Event(SessionIdle), t + 300)]).actions
            == [Reminder(mode), NoAction, NoAction, NoAction]
  {
    var calls := [Call(Event(SessionIdle), t), Call(Event(SessionIdle), t + 100),
                  Call(Event(SessionIdle), t + 200), Call(Event(SessionIdle), t + 300)];
    RunUnfold(mode, InitialLastFiredAt, calls);
    SuppressedCallsChangeNothing(mode, t, calls[1..]);
    assert seq(3, _ => NoAction) == [NoAction, NoAction, NoAction];
  }

  /** The handler object returned by the plugin factory: the closure's mutable
      `lastFiredAt` becomes a field, `MODE` a constant fixed at construction. */
  class Debouncer {
    const mode: string
    var lastFiredAt: int

    /** The clock readings of all dispatched reminders so far, oldest first. */
    ghost var fireTimes: seq<int>

    /** The timestamp is the latest reminder's time (or the initial 0), and
        all reminders so far are a cooldown apart, the first one a cooldown
        after 0. */
    ghost predicate Valid()
      reads this
    {
      var history := [InitialLastFiredAt] + fireTimes;
      lastFiredAt == Last(history) && Spaced(history)
    }

    constructor (mode: string)
      ensures Valid()
      ensures this.mode == mode && lastFiredAt == InitialLastFiredAt && fireTimes == []
    {
      this.mode := mode;
      lastFiredAt := InitialLastFiredAt;
      fireTimes := [];
    }

    /** The `event` handler: ignores non-idle events, suppresses idle events
        within the cooldown, and otherwise commits the timestamp and selects
        the one reminder to dispatch. */
    method OnEvent(ev: Event, now: int) returns (a: Action)
      requires Valid()
      modifies this
      ensures Valid()
      ensures Transition(lastFiredAt, a) == Step(mode, old(lastFiredAt), ev, now)
      ensures fireTimes == if a == NoAction then old(fireTimes) else old(fireTimes) + [now]
    {
      if ev.eventType != SessionIdle {
        return NoAction;
      }
      if now - lastFiredAt < Cooldown {
        return NoAction;
      }
      ghost var history := [InitialLastFiredAt] + fireTimes;
      lastFiredAt := now;
      fireTimes := fireTimes + [now];
      assert [InitialLastFiredAt] + fireTimes == history + [now];
      a := Reminder(mode);
    }
  }
}
