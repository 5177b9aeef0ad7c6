# Continuous-learning activator: the idle-reminder debouncer

The `ContinuousLearningActivator` plugin is a host-application plugin. It reminds the
user to run `/retrospective` whenever a session becomes idle. Its logic is the
`event` handler returned by the plugin factory:

- events whose type is not `"session.idle"` are ignored;
- an idle event that comes less than `COOLDOWN_MS = 1500` ms after the last
  reminder is suppressed;
- otherwise the handler commits `lastFiredAt = now` and dispatches exactly one
  reminder. With `MODE === "append"` it appends a fixed text to the prompt.
  With any other mode it shows a fixed toast message with variant `"info"`.

`activator.dfy` holds one module, `ContinuousLearningActivator`, in two layers:

- Pure functions: `Reminder` chooses the reminder by mode. `Step` is one call of
  the handler as a function of the timestamp before it. `Run` folds `Step` over a
  series of calls. `Fired` reads the times of the dispatched reminders off a run.
  Lemmas about these state the safety properties over arbitrary call series with
  arbitrary (possibly non-monotonic) clock readings.
- The class `Debouncer`: the closure's mutable `lastFiredAt` is a field and
  `MODE` is a constant fixed at construction. `OnEvent` is the handler. It is
  proved equal to `Step`. A ghost history of fire times, kept up to date by
  `OnEvent`, carries the invariant that the timestamp is the latest fire time and
  that all fire times so far are at least 1500 ms apart.

The clock read `Date.now()` is the parameter `now`. The host's `showToast` and
`appendPrompt` calls are modelled by the `Action` value the handler selects.

The comment at line 9 of the plugin says a reminder follows each assistant
response. `lastFiredAt` starts at 0 (line 16) and line 25 tests `now - 0 < 1500`,
so a first idle event fires only when `now >= 1500`. Epoch-millisecond clock
readings always meet that. `FirstIdleFiresIff` and `ScenarioFromZero` pin down
the behaviour near 0. `ScenarioWallClock` and `ScenarioBurst` show the same call
patterns at realistic clock readings.

## Model

| member | source | states |
|---|---|---|
| `ContinuousLearningActivator.Reminder` | opencode/plugins/continuous-learning-activator.js:28-40 | A fired event always dispatches an action. It is an append exactly when the mode is `"append"`, and then carries the append text. Otherwise it is the fixed toast message with variant `"info"`. |
| `ContinuousLearningActivator.Step` | opencode/plugins/continuous-learning-activator.js:20-40 | A call dispatches iff the event is `"session.idle"` and `now >= lastFiredAt + 1500` (boundary inclusive, any clock reading). A suppressed call leaves the timestamp unchanged. A dispatching call sets it to exactly `now` and dispatches the mode's reminder. |
| `ContinuousLearningActivator.Run` | opencode/plugins/continuous-learning-activator.js:20-26 | A series of handler calls produces exactly one outcome (an action or none) per call. |
| `ContinuousLearningActivator.RunSpaced` | opencode/plugins/continuous-learning-activator.js:25-26 | For any series of calls and any clock readings, each two consecutive reminders are at least 1500 ms apart. The first one is at least 1500 ms after the starting timestamp. |
| `ContinuousLearningActivator.RunTimestampIsLastFire` | opencode/plugins/continuous-learning-activator.js:16-26 | After any series of calls, `lastFiredAt` is the time of the most recent reminder, or the starting value when none fired. |
| `ContinuousLearningActivator.SuppressedCallsChangeNothing` | opencode/plugins/continuous-learning-activator.js:22-25 | Any number of calls that do not fire change nothing and dispatch nothing. Such calls are non-idle events, or idle events within the cooldown, including clock readings earlier than `lastFiredAt`. |
| `ContinuousLearningActivator.RunDispatchesOnlyReminder` | opencode/plugins/continuous-learning-activator.js:28-40 | Every call of a run dispatches nothing or exactly the mode's one reminder. |
| `ContinuousLearningActivator.ShippedModeOnlyToasts` | opencode/plugins/continuous-learning-activator.js:11-40 | With the shipped `MODE = "toast"`, only info toasts with the fixed message are ever dispatched. |
| `ContinuousLearningActivator.FirstIdleFiresIff` | opencode/plugins/continuous-learning-activator.js:16-25 | From the initial timestamp 0, the first idle event fires iff `now >= 1500`. |
| `ContinuousLearningActivator.CooldownBoundaryInclusive` | opencode/plugins/continuous-learning-activator.js:25-26 | An idle event exactly 1500 ms after the last reminder fires and moves the timestamp. One at 1499 ms is suppressed and leaves the timestamp alone. |
| `ContinuousLearningActivator.FireSuppressesFollowUp` | opencode/plugins/continuous-learning-activator.js:25-35 | The timestamp is committed as part of the decision, before the dispatch. Whatever becomes of the dispatched reminder, a following idle event within 1500 ms is suppressed. |
| `ContinuousLearningActivator.ScenarioFromZero` | opencode/plugins/continuous-learning-activator.js:16-26 | From timestamp 0, idle events at 0, 1000 and 1600 give: suppressed, suppressed, reminder. |
| `ContinuousLearningActivator.ScenarioWallClock` | opencode/plugins/continuous-learning-activator.js:16-26 | At clock readings `t >= 1500`, idle events at t, t+1000 and t+1600 give: reminder, suppressed, reminder. Idle events at t and t+1500 give two reminders. |
| `ContinuousLearningActivator.ScenarioBurst` | opencode/plugins/continuous-learning-activator.js:16-26 | At `t >= 1500`, a burst at t, t+100, t+200 and t+300 dispatches only the first reminder. |
| `ContinuousLearningActivator.Debouncer.constructor` | opencode/plugins/continuous-learning-activator.js:11-17 | A fresh handler has the given mode, `lastFiredAt = 0` and no reminders fired. |
| `ContinuousLearningActivator.Debouncer.OnEvent` | opencode/plugins/continuous-learning-activator.js:20-40 | The new timestamp and the selected action are those of `Step` from the old timestamp. The fire history grows by `now` exactly when a reminder is dispatched. The invariant is kept: the timestamp is the latest fire time and all fire times are 1500 ms apart. |

## Left out

- `Date.now()` is a clock read. It is the input `now`, an unbounded integer. JavaScript numbers are doubles, but epoch-millisecond readings and their differences are exact integers well below 2^53, so nothing is lost.
- The `showToast` and `appendPrompt` calls are foreign asynchronous I/O. The model selects the action and its payload. It does not model their effect, their completion, or the rejection of the handler's promise when they fail. The timestamp is committed before them in any case.
- `async`/`await` and the factory's `async ({ client })` wrapper are host plugin-loading and promise plumbing. The handler is `async`, so the host may start a new call while an earlier one still awaits its dispatch. The sequential `Step` fold is still exact for the timestamp: lines 22-26 have no `await` between the cooldown test and the commit, so each call's decision and commit happen as one uninterrupted step.
- An event is reduced to its `type` field, the only part the handler reads.
- The rendering of the toast and prompt texts is left out. The texts are carried as opaque strings.
