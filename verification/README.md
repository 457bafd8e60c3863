# Health reminder: countdown scheduler model

A Dafny model of the scheduling core of a desktop well-being reminder
(a Tauri app whose front end is `src/main.js`). The app keeps a list of
reminder tasks ("sit", "water", "eye" and custom ones), a countdown in
seconds per task, a single popup slot and the day's statistics. A
one-second `tick` counts every enabled task down. When a countdown reaches
0 the task's notification fires and the task takes over the popup slot.
"Got it" counts the break and restarts that task. Cards let the user add,
remove, rename, re-time, switch off and reset tasks. "Pause" and
"Reset all" act on the whole clock.

The model is functional. `Scheduler.State` is an immutable record (task
list, countdown map, `Option` popup, statistics, pause and sound flags).
Every command is a pure function returning a `Transition`: the next state
plus the effects issued, in order (`PlaySound`, `ShowNotification`,
`SaveSettings`, `SaveStats`). Modules:

- `Wrappers`: `Option`.
- `Tasks`: the task record, the built-in tasks, `find`/`filter`/`Object.assign` on the list.
- `Scheduler`: state, start-up, and one function per command or card handler.
- `TickProperties`: what a tick does to countdowns, notifications and the popup slot.
- `CommandProperties`: what each other command does and leaves alone.
- `InvariantProperties`: the invariant `0 <= countdown <= interval*60` (with unique ids, positive intervals and one countdown per task) holds at start-up and is kept by every command.
- `Display`: `formatTime` and the "next task" scan.
- `Controller`: the page's inputs as one `Command` type, runs of commands, pause/resume, and what happens to an overwritten reminder.

What `src/main.js` does, and the model with it:

- The app has one popup slot, and a due task overwrites it. There is no
  merging, queue, lock screen, snooze, idle reset or pre-due notice.
- `removeTask` removes built-in tasks too. Only the page hides their
  remove button (src/main.js:277).
- `updateTask` does not check the interval. The interval field's
  `val > 0` guard and the preset values keep it positive;
  `UnguardedIntervalBreaksInv` shows what an unchecked value would do.

## Model

| member | source | states |
|---|---|---|
| Tasks.DefaultTasksWellFormed | src/main.js:20-24 | The built-in tasks have distinct ids `sit`, `water`, `eye` and positive intervals. |
| Tasks.FindIndex | src/main.js:157 | `find` locates the first task carrying the id; it finds nothing exactly when no task carries it. |
| Tasks.Find | src/main.js:131 | `find` returns the first listed task with that id (no earlier task carries it); none is found exactly when the id is absent. |
| Tasks.FindMember | src/main.js:131 | With unique ids, looking up a task's id finds that very task. |
| Tasks.WithoutId | src/main.js:150 | The filtered list holds exactly the tasks whose id differs, and its ids are the old ids minus the removed one. |
| Tasks.WithoutIdAt | src/main.js:150 | With unique ids, filtering out the id at position k removes exactly that task and keeps the others in order. |
| Tasks.WithoutAppended | src/main.js:140-150 | Filtering out the id of a task appended to a list lacking that id gives back the list. |
| Tasks.WithoutIdUnique | src/main.js:150 | Filtering keeps ids unique. |
| Tasks.Apply | src/main.js:159 | `Object.assign` replaces the title and interval the update carries and keeps every other field. |
| Scheduler.Init | src/main.js:38-62 | Start-up: the loaded tasks, a seeded countdown per task, no popup, unpaused. Its contract is stated by `InvariantProperties.InitEstablishesInv` and `InvariantProperties.DefaultInit`. |
| Scheduler.Tick | src/main.js:103-115 | The one-second tick. Its contract is stated by `TickProperties.TickCountdowns`, `TickProperties.TickNotifications` and `TickProperties.TickDueOnOneToZero`. |
| Scheduler.TickStep | src/main.js:106-112 | One visit of the tick's `forEach`. Its contract is stated by `TickProperties.TickStepCountdowns` and `TickProperties.TickStepNotifies`. |
| Scheduler.Dismiss | src/main.js:126-136 | "Got it" on the popup. Its contract is stated by `CommandProperties.DismissSpec`. |
| Scheduler.AddTask | src/main.js:138-147 | "Add custom reminder". Its contract is stated by `CommandProperties.AddTaskSpec` and `CommandProperties.RemoveUndoesAdd`. |
| Scheduler.RemoveTask | src/main.js:149-154 | Removing a task. Its contract is stated by `CommandProperties.RemoveTaskSpec` and `CommandProperties.RemoveTaskExactlyOne`. |
| Scheduler.UpdateTask | src/main.js:156-165 | Patching a task. Its contract is stated by `CommandProperties.UpdateTaskSpec`. |
| Scheduler.TogglePause | src/main.js:167-170 | Pause and resume. Its contract is stated by `CommandProperties.TogglePauseSpec`. |
| Scheduler.ResetAll | src/main.js:172-178 | "Reset all". Its contract is stated by `CommandProperties.ResetAllFrame`, `CommandProperties.ResetAllSpec` and `CommandProperties.ResetAllIdempotent`. |
| Scheduler.ResetTask | src/main.js:388-397 | Click on a card's ring. Its contract is stated by `CommandProperties.ResetTaskSpec`. |
| Scheduler.ToggleEnabled | src/main.js:326-334 | Click on a card's switch; an empty `data-toggle-id` does nothing. Its contract is stated by `CommandProperties.ToggleEnabledSpec` and `CommandProperties.ToggleEnabledTwice`. |
| Scheduler.IntervalInput | src/main.js:361-369 | Typing in an interval field. Its contract is stated by `CommandProperties.IntervalInputSpec`. |
| Scheduler.PresetClick | src/main.js:371-378 | A preset button. Its contract is stated by `CommandProperties.PresetClickSpec` and `InvariantProperties.PresetClickKeepsInv`. |
| Scheduler.TitleEdit | src/main.js:381-386 | Leaving an edited title. Its contract is stated by `CommandProperties.TitleEditSpec` and `CommandProperties.TitleEditKeepsCountdowns`. |
| Display.FormatTime | src/main.js:180-184 | `formatTime`. Its contract is stated by `Display.FormatTimeClock`, `Display.FormatTimeWidensAt100Minutes` and `Display.FormatTimeNegative`. |
| Display.IntToString | src/main.js:183 | `String(i)` for an integer: a minus sign before the digits of `-i` when negative. Its value is stated through `Display.NatToString`; `Display.NegativeField` states the negative case. |
| Scheduler.SeedCountdowns | src/main.js:58-62 | Start-up seeding keeps existing countdowns and gives every listed id an entry. |
| Scheduler.TriggerNotification | src/main.js:117-122 | A due task takes over the popup slot and nothing else in the state changes. It issues two effects, the sound and then the OS notification, when sound is on, and only the notification otherwise; the notification carries the task's title and text. |
| Scheduler.TickTasks | src/main.js:106-113 | The tick's loop changes only countdowns and the popup slot, keeps the set of countdown ids, and only appends effects. |
| Scheduler.CountBreak | src/main.js:129-130 | Dismissing counts a break only for id `sit` and a cup only for id `water`. |
| Scheduler.ResetCountdowns | src/main.js:173-175 | "Reset all" gives every listed id an entry and leaves the entries of other ids alone. |
| TickProperties.TickStepCountdowns | src/main.js:107-108 | One loop step moves only that task's countdown, and only when it is enabled and positive. |
| TickProperties.TickStepNotifies | src/main.js:109-110 | One loop step notifies and takes the popup slot exactly when the task steps from 1 to 0. |
| TickProperties.DueTasksMembers | src/main.js:107-110 | The due tasks are exactly the listed enabled tasks whose countdown is 1. |
| TickProperties.TickTasksCountdowns | src/main.js:106-108 | Over a unique-id list, each listed task's countdown drops by one if it is enabled and positive; unlisted entries stay put. |
| TickProperties.TickTasksEffects | src/main.js:106-122 | Over a unique-id list, exactly the due tasks are notified, in list order. |
| TickProperties.TickTasksPopup | src/main.js:109-118 | Over a unique-id list, the popup slot ends holding the last due task, or what it held before when none is due. |
| TickProperties.TickCountdowns | src/main.js:103-108 | A paused tick changes nothing. Otherwise each enabled positive countdown drops by exactly 1, disabled tasks and tasks at 0 stay put, and tasks, stats and flags are untouched. |
| TickProperties.TickNotifications | src/main.js:103-118 | A paused tick issues no effect and keeps the popup. Otherwise the notifications are exactly those of the due tasks, in order, and the popup holds the last of them (no queue). |
| TickProperties.TickDueOnOneToZero | src/main.js:107-110 | A task is due exactly when its countdown steps from positive to 0, i.e. it is enabled at 1; a task at 0 is never due again and stays at 0. |
| TickProperties.TickPreservesInv | src/main.js:107-108 | Ticking keeps every countdown in `[0, interval*60]`. |
| TickProperties.SimultaneousDueKeepsLast | src/main.js:106-118 | When tasks at positions `i < j` of a unique-id list fall due in one tick, both are notified, the earlier first, and the popup ends up holding a task from position `j` on, never the earlier one. |
| CommandProperties.DismissSpec | src/main.js:126-134 | With no popup, dismiss is a no-op. Otherwise it bumps `sitBreaks`/`waterCups` only for `sit`/`water`, restarts the countdown of the task still carrying the id (none if removed), touches no other countdown, clears the slot and saves the stats. |
| CommandProperties.DismissRestartsCurrentInterval | src/main.js:131-132 | The restart uses the task's current interval, not the copy held in the popup. |
| CommandProperties.DismissTwiceIsDismissOnce | src/main.js:127-133 | A second dismiss does nothing. |
| CommandProperties.AddTaskSpec | src/main.js:138-145 | Adding appends exactly one enabled 30-minute task under the id with a 1800 s countdown, keeps all other tasks and countdowns, leaves the rest of the state (popup, statistics, pause and sound flags) unchanged, and saves the settings. |
| CommandProperties.AddTaskFindsNew | src/main.js:139-142 | Under a fresh id, the new task is what `find` returns for it. |
| CommandProperties.RemoveUndoesAdd | src/main.js:138-154 | Removing a task just added under a fresh id restores the state exactly. |
| CommandProperties.RemoveTaskSpec | src/main.js:149-152 | Removing drops every task with the id and its countdown entry, keeps all other tasks and countdowns, leaves the rest of the state (popup, statistics, pause and sound flags) unchanged, and saves the settings. |
| CommandProperties.RemoveTaskExactlyOne | src/main.js:150 | With unique ids, removal takes out exactly the one task at its position. |
| CommandProperties.UpdateTaskSpec | src/main.js:156-165 | Unknown id: no-op with no save. Otherwise the first such task is patched in place; an interval restarts its countdown at the new `interval*60`, and a title-only update moves no countdown. The rest of the state (popup, statistics, pause and sound flags) is unchanged, and the settings are saved. |
| CommandProperties.TogglePauseSpec | src/main.js:167-170 | Pausing flips only the pause flag; doing it twice restores the state. |
| CommandProperties.ResetCountdownsFull | src/main.js:173-175 | Over a unique-id list, every listed task is reset to its full countdown. |
| CommandProperties.ResetAllFrame | src/main.js:172-178 | For any task list, "reset all" gives every listed id an entry, keeps other entries, unpauses, issues nothing, and leaves tasks, popup, statistics and the sound flag unchanged. |
| CommandProperties.ResetAllSpec | src/main.js:172-178 | Over a unique-id list, "reset all" sets every task's countdown to `interval*60`, unpauses, and changes nothing else. |
| CommandProperties.ResetAllIdempotent | src/main.js:172-178 | A second "reset all" changes nothing, for any task list, duplicate ids included. |
| CommandProperties.ResetCountdownsForgets | src/main.js:173-175 | On the listed ids, "reset all" writes values that do not depend on the countdowns it starts from. |
| CommandProperties.ResetTaskSpec | src/main.js:388-397 | Clicking a card's ring restarts only that task's countdown; an unknown id is a no-op. |
| CommandProperties.ToggleEnabledSpec | src/main.js:326-334 | The card switch flips only the first matching task's enabled flag, moves no countdown and saves; an empty or unknown id is a no-op. |
| CommandProperties.ToggleEnabledTwice | src/main.js:326-334 | Flipping the same switch twice restores the state. |
| CommandProperties.IntervalInputSpec | src/main.js:361-369 | NaN, zero or negative input, or an unknown id, changes nothing. A positive value sets the first matching task's interval and restarts its countdown at `value*60`; other tasks, other countdowns and the rest of the state are unchanged, and the settings are saved. |
| CommandProperties.PresetClickSpec | src/main.js:371-378 | A preset button gives the first task with the id the button's minutes as interval and a `minutes*60` countdown, adding no countdown entry but that id's; other tasks, other countdowns and the rest of the state are unchanged, and the settings are saved. An unknown id is a no-op. |
| CommandProperties.TitleEditSpec | src/main.js:381-386 | Leaving an edited title gives the first task with the id that title; no countdown moves, nothing else changes, and the settings are saved. An unknown id is a no-op. |
| CommandProperties.TitleEditKeepsCountdowns | src/main.js:381-386 | Editing a title moves no countdown and leaves the popup alone. |
| InvariantProperties.SeedCountdownsFull | src/main.js:58-62 | Start-up seeding gives each task lacking an entry its full countdown. |
| InvariantProperties.InitEstablishesInv | src/main.js:38-62 | Start-up with unique ids and positive intervals gives each task its full countdown, unpaused, with no popup, so the invariant holds. |
| InvariantProperties.DefaultInit | src/main.js:20-62 | With the built-in tasks the countdowns start at 2700, 3600 and 1200 seconds. |
| InvariantProperties.TickKeepsInv | src/main.js:103-113 | The tick keeps the invariant. |
| InvariantProperties.DismissKeepsInv | src/main.js:126-136 | Dismiss keeps the invariant. |
| InvariantProperties.AddTaskKeepsInv | src/main.js:138-147 | Adding under a fresh id keeps the invariant. |
| InvariantProperties.RemoveTaskKeepsInv | src/main.js:149-154 | Removing keeps the invariant. |
| InvariantProperties.PatchKeepsIds | src/main.js:159 | Patching a task in place keeps the list's ids and their uniqueness. |
| InvariantProperties.UpdateTaskKeepsInv | src/main.js:156-165 | An update whose interval, if any, is positive keeps the invariant. |
| InvariantProperties.TogglePauseKeepsInv | src/main.js:167-170 | Pausing keeps the invariant. |
| InvariantProperties.ResetAllKeepsInv | src/main.js:172-178 | "Reset all" keeps the invariant. |
| InvariantProperties.ResetTaskKeepsInv | src/main.js:388-397 | The per-card reset keeps the invariant. |
| InvariantProperties.ToggleEnabledKeepsInv | src/main.js:326-334 | The enabled switch keeps the invariant. |
| InvariantProperties.IntervalInputKeepsInv | src/main.js:361-369 | Whatever is typed into an interval field, the `val > 0` guard keeps the invariant. |
| InvariantProperties.PresetClickKeepsInv | src/main.js:371-378 | A preset button (15, 30, 45 or 60 minutes) keeps the invariant. |
| InvariantProperties.TitleEditKeepsInv | src/main.js:381-386 | A title edit keeps the invariant. |
| InvariantProperties.UnguardedIntervalBreaksInv | src/main.js:156-162 | `updateTask` itself does not check the interval: a negative one would push a countdown below 0. |
| Display.NatToString | src/main.js:183 | `String(n)` is a non-empty run of digits that spells `n`, with no leading zero, one digit exactly for `n < 10`. |
| Display.PadStart2 | src/main.js:183 | `padStart(2, '0')` ends with the original text, is at least 2 long, and puts only zeros in front. |
| Display.JsRem | src/main.js:182 | JavaScript's `%` is what is left after taking out the quotient rounded toward zero: `a == b * trunc(a / b) + r`, with `0 <= r < b` for `a >= 0` and `-b < r <= 0` for `a < 0`. |
| Display.ParseClock | src/main.js:180-184 | Reads a face `formatTime` produces back as seconds; anything it accepts is below 6000. |
| Display.FormatTimeClock | src/main.js:180-184 | For `0 <= s < 6000` the result is five characters `MM:SS`, minutes `s / 60`, seconds `s % 60 < 60`, and it reads back as `s`. |
| Display.FormatTimeWidensAt100Minutes | src/main.js:180-184 | From 6000 seconds on, the result is longer than five characters. |
| Display.FormatTimeNegative | src/main.js:180-184 | For any negative input, the minutes field is a minus sign and the digits of the magnitude of `Math.floor(s / 60)`. The seconds field is `00` on a whole minute and otherwise a minus sign and the digits of the truncating remainder's magnitude. Neither field is zero-padded. |
| Display.FormatTimeNegativeExamples | src/main.js:180-184 | Two examples: `-1` gives `-1:-1` and `-61` gives `-2:-1`. |
| Display.IsNextUnique | src/main.js:192-199 | At most one task is the "next task". |
| Display.NextTask | src/main.js:192-199 | The scan returns none exactly when no task is enabled with a countdown. Otherwise it returns the first enabled task, in list order, whose countdown is least. |
| Controller.StepKeepsInv | src/main.js:399-406 | Every admissible command keeps the invariant. |
| Controller.RunKeepsInv | src/main.js:103-178 | Every admissible run of commands keeps the invariant. |
| Controller.StartupRunKeepsInv | src/main.js:58-65 | From start-up with the built-in tasks, every countdown stays in `[0, interval*60]` after any admissible run. |
| Controller.PausedTicksAreDropped | src/main.js:103-104 | While paused, any number of ticks changes nothing and issues nothing. |
| Controller.PauseResumeRestores | src/main.js:103-104 | Pausing, letting `n` ticks pass and resuming gives back the exact state, countdowns included. |
| Controller.ClockStepKeepsStalled | src/main.js:106-133 | A tick, dismiss or pause toggle keeps a task that is at 0 and not in the popup at 0 and out of the popup. |
| Controller.StalledTaskStaysStalled | src/main.js:106-133 | A task at 0 that the popup does not show stays at 0 and is never shown again, over any run of ticks, dismisses and pause toggles. |
| Controller.OverwrittenReminderStalls | src/main.js:106-133 | When tasks at positions `i < j` fall due in one tick, the earlier one's popup is overwritten; afterwards no run of ticks, dismisses and pause toggles moves it off 0 or shows it again. |

## Left out

- `src-tauri/src/lib.rs` is not part of this model. It holds settings file I/O, the OS notification, sound playback, the tray menu and window show/hide. The model records these calls as effects only.
- Work minutes (`stats.workMinutes`, src/main.js:105): computed from the wall clock.
- Statistics load and save through `localStorage` (src/main.js:83-101): a dated storage round-trip. The model only records `SaveStats`. `Init` takes the loaded statistics as a parameter.
- Settings loading (src/main.js:72-81): a JSON file merge. `Init` takes the loaded task list and sound flag as parameters.
- Id generation `'task_' + Date.now()` (src/main.js:139): `AddTask` takes the new id as a parameter. The invariant lemmas require it to be fresh.
- `parseInt` (src/main.js:363, 373): string parsing by a built-in. `IntervalInput` takes its result, with `None` standing for NaN. Preset buttons are modelled by the minute value they carry.
- DOM rendering, timer label, ring offsets (src/main.js:186-190, 201-231, 233-319): presentation only, and the ring offsets use floating-point division.
- Sound and autostart switches, the test-sound button and the notification permission request (src/main.js:45-56, 335-357, 408-411): settings and OS calls with no scheduling logic.
- `Patch` carries only a title and an interval. These are the only fields any caller passes to `updateTask`; other `Object.assign` fields are never used.
- `FormatTime`: modelled for integer seconds only. Countdowns are always integers, so NaN and fractional inputs never reach it.
- The async wrappers are left out. `triggerNotification` contains no `await`, so its whole body runs synchronously inside the tick's `forEach`, which is what `TickStep` models. The `invoke` calls are fire-and-forget.
- TickProperties.TickCountdowns: stated for task lists with unique ids only, which the model's invariant guarantees. The source does not check ids for uniqueness, so two tasks created in the same millisecond would share one countdown. The model's `Tick` computes that case as the source does, but no lemma describes it.
- TickProperties.TickNotifications: stated for unique ids only, as for `TickCountdowns`.
- The remove button being hidden for built-in tasks (src/main.js:277) is presentation. `removeTask` itself removes any id, and so does the model.
- Scheduler.IntervalInput: JavaScript numbers are doubles; the model uses unbounded integers. It assumes an interval below 2^53/60 minutes, so that `interval*60` and each `countdowns[id]--` are exact. A typed value from about 1.5·10^14 on breaks this (150119987579017 minutes already gives `interval*60` above 2^53): the decrement leaves the countdown unchanged and the task never fires, and `TickProperties.TickCountdowns`' drop by exactly 1 does not hold for it. `parseInt` returning `Infinity` (309 or more digits) is not modelled. The field's `max="1440"` does not limit typed input.
- Scheduler.ToggleEnabled and Scheduler.SeedCountdowns: task ids are modelled as plain map keys. `countdowns` is a plain `{}` in the source, so an id naming a built-in object property (`constructor`, `toString`, ...) already has a non-`undefined` value there. Start-up would not seed such an id, and the tick would never count it down. The app only generates `sit`, `water`, `eye` and `task_<timestamp>` ids, and the model does not cover the other case.
