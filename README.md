# Pomodoro controller and task list of the productivity dashboard

This project models the two pieces of the dashboard that hold real logic.

1. The **Pomodoro session controller** (`PomodoroTimer`). It is a countdown with a phase (work, short break, long break), a status (idle, running, paused), the seconds left, a count of completed work sessions and an interval handle.
   - Module `Pomodoro` gives the phase lengths, the `MM:SS` display, the progress percentage and every transition as pure functions over a `Session` value. The lemmas about the transitions are here.
   - Module `PomodoroComponent` holds the class `PomodoroTimer`. Its fields are updated in place by the component's handlers. Each method is tied to the matching transition of `Pomodoro`. The interval handle is the flag `armed`. Toasts are appended to a ghost log.
2. The **task list** (`TaskList`). It has the `Task` record and three list edits: toggle completion, delete, and reorder by drag and drop. It also has the overdue flag of a task row.
   - Module `Tasks` gives these as functions over `seq<Task>`, with their lemmas.
   - Module `TaskListComponent` holds the class `TaskList`. Its one field is the list. Each handler replaces the list wholesale and keeps ids unique.

The invariant of the controller is `Pomodoro.WellFormed`:
- the seconds left never exceed the length of the current phase;
- the interval is armed exactly while the status is Running, so there is at most one tick source.

Every transition preserves it, except the unmount cleanup, after which no tick can arrive.

Modelling choices:
- `startTimer` does not clear an interval that is already armed (line 44). The controls offer Start only when the status is not Running (lines 209-240). So `Start` requires a status other than Running.
- `arrayMove` comes from the drag and drop library, and its code is not part of this model. It is assumed to take the element out at `from` and insert it at `to`. A negative `to` counts from the end of the list, as `Array.prototype.splice` does. So a drop over nothing (`findIndex` gives -1) moves the task to the end of the list.
- `handleDragEnd` is only called by the drag and drop library, for a task rendered from the list. `DragEnd` therefore requires the dragged id to be in the list.
- Due dates are instants in milliseconds since the epoch. The mock tasks' date strings are taken as midnight UTC. The current time is a parameter.

## Model

| member | source | states |
|---|---|---|
| Pomodoro.Duration | src/components/pomodoro/PomodoroTimer.tsx:23-29 | every phase length is positive (so the progress division is defined) and at most the work length |
| Pomodoro.WellFormed | src/components/pomodoro/PomodoroTimer.tsx:17-21 | the invariant: time left at most the phase length, interval armed exactly while running; Initial establishes it and every transition but Teardown preserves it |
| Pomodoro.DurationValues | src/components/pomodoro/PomodoroTimer.tsx:8-10 | work lasts 1500 s, a short break 300 s, a long break 900 s |
| Pomodoro.Initial | src/components/pomodoro/PomodoroTimer.tsx:17-21 | the mount state satisfies the invariant, has the full phase length and no interval |
| Pomodoro.InitialState | src/components/pomodoro/PomodoroTimer.tsx:17-20 | the mount state is work, idle, 1500 s left, 0 sessions |
| Pomodoro.Start | src/components/pomodoro/PomodoroTimer.tsx:42-53 | starting from a non-running state gives a running state that keeps the invariant, with time left, phase and count unchanged |
| Pomodoro.Pause | src/components/pomodoro/PomodoroTimer.tsx:55-61 | from any state, pausing gives status Paused with no interval armed, keeps the invariant, and leaves time left, phase and count unchanged |
| Pomodoro.Reset | src/components/pomodoro/PomodoroTimer.tsx:63-70 | from any state, reset gives a state satisfying the invariant with no interval |
| Pomodoro.SwitchMode | src/components/pomodoro/PomodoroTimer.tsx:103-107 | from any state, switching gives a state satisfying the invariant with no interval |
| Pomodoro.Complete | src/components/pomodoro/PomodoroTimer.tsx:72-101 | completion always changes the phase, ends idle with no interval and keeps the invariant |
| Pomodoro.BreakAfter | src/components/pomodoro/PomodoroTimer.tsx:84 | the completion policy; WorkCompletion and BreakCadence show it picks a long break exactly when the new count is a multiple of 4 |
| Pomodoro.Tick | src/components/pomodoro/PomodoroTimer.tsx:44-51 | a tick keeps the invariant and never lowers the session count |
| Pomodoro.Teardown | src/components/pomodoro/PomodoroTimer.tsx:109-115 | unmounting disarms the interval and changes nothing else |
| Pomodoro.CompletionToast | src/components/pomodoro/PomodoroTimer.tsx:88-99 | the toast is a work-completed toast exactly when a work phase ended, and it names the break chosen |
| Pomodoro.TickAsWritten | src/components/pomodoro/PomodoroTimer.tsx:44-51 | the tick as the updater can end (0 left after completion); it keeps the invariant, and AsWrittenSkipsNextPhase shows its effect |
| Pomodoro.AsWrittenSkipsNextPhase | src/components/pomodoro/PomodoroTimer.tsx:44-94 | as written, a completing tick leaves the next phase at 0 s, and starting it completes that phase after one tick |
| Pomodoro.CompletionStartsFullPhase | src/components/pomodoro/PomodoroTimer.tsx:84-94 | with the intended value, the phase after a completion starts at its full length (at least 300 s) and its first tick only counts down |
| Pomodoro.TickDecrements | src/components/pomodoro/PomodoroTimer.tsx:45-51 | a tick with more than 1 s left lowers it by exactly 1 and changes nothing else |
| Pomodoro.WorkCompletion | src/components/pomodoro/PomodoroTimer.tsx:72-91 | a completing work tick adds one session, goes to a long break iff the new count is a multiple of 4 (else a short break) at its full length, idle, disarmed |
| Pomodoro.BreakCompletion | src/components/pomodoro/PomodoroTimer.tsx:92-100 | a completing break tick goes to work with 1500 s, idle, disarmed, same session count |
| Pomodoro.PauseThenResume | src/components/pomodoro/PomodoroTimer.tsx:42-61 | pause keeps time, phase and count and disarms; starting again restores exactly the running state |
| Pomodoro.ResetRestores | src/components/pomodoro/PomodoroTimer.tsx:63-70 | reset keeps phase and count, restores the phase's full length, idle and disarmed |
| Pomodoro.SwitchDiscards | src/components/pomodoro/PomodoroTimer.tsx:103-107 | switching to m, whatever the status, gives phase m with its full length, idle, disarmed, same count |
| Pomodoro.Ticks | src/components/pomodoro/PomodoroTimer.tsx:44-52 | any number of interval firings keeps the invariant |
| Pomodoro.TicksRunToCompletion | src/components/pomodoro/PomodoroTimer.tsx:44-52 | a running countdown with k seconds left completes after exactly k ticks |
| Pomodoro.FirstWorkSession | src/components/pomodoro/PomodoroTimer.tsx:17-86 | from mount, Start and 1500 ticks reach a short break of 300 s with one completed session |
| Pomodoro.RunPhaseCompletes | src/components/pomodoro/PomodoroTimer.tsx:42-101 | an uninterrupted phase, started and ticked to the end, ends as the completion policy says |
| Pomodoro.OneCycle | src/components/pomodoro/PomodoroTimer.tsx:72-101 | an uninterrupted work phase ends idle, and the break after it ends in a fresh work phase with one more session |
| Pomodoro.CyclesFromFreshWork | src/components/pomodoro/PomodoroTimer.tsx:72-101 | k uninterrupted work-and-break cycles from a fresh work phase with n sessions give a fresh work phase with n + k sessions |
| Pomodoro.CyclesFromMount | src/components/pomodoro/PomodoroTimer.tsx:17-101 | from mount, uninterrupted cycle i starts as a fresh work phase with i sessions |
| Pomodoro.BreakCadence | src/components/pomodoro/PomodoroTimer.tsx:79-86 | the work phase of cycle i ends with i + 1 sessions, in a long break exactly when i + 1 is a multiple of 4 |
| Pomodoro.FirstFiveBreaks | src/components/pomodoro/PomodoroTimer.tsx:79-86 | the first five work sessions are followed by short, short, short, long, short |
| Pomodoro.Progress | src/components/pomodoro/PomodoroTimer.tsx:37-40 | the elapsed share in percent; ProgressBounds keeps it in [0, 100] and ProgressEndpoints pins 0 and 100 |
| Pomodoro.ProgressBounds | src/components/pomodoro/PomodoroTimer.tsx:37-40 | under the invariant the progress lies in [0, 100] |
| Pomodoro.ProgressEndpoints | src/components/pomodoro/PomodoroTimer.tsx:37-40 | progress is 0 exactly at the full length and 100 exactly at 0 s left |
| Pomodoro.DigitChar | src/components/pomodoro/PomodoroTimer.tsx:34 | each digit value maps to a digit character that reads back as that value |
| Pomodoro.NatToString | src/components/pomodoro/PomodoroTimer.tsx:34 | the decimal text of a number is non-empty digits, one digit exactly below 10, at most two exactly below 100 |
| Pomodoro.PadStart | src/components/pomodoro/PomodoroTimer.tsx:34 | padding reaches the width (or keeps a longer text), keeps the text as a suffix and fills the front with the filler |
| Pomodoro.ParseNatToString | src/components/pomodoro/PomodoroTimer.tsx:34 | reading back the decimal text of n gives n |
| Pomodoro.Pad2Shape | src/components/pomodoro/PomodoroTimer.tsx:34 | a number padded to two digits is digits that read back as the number, exactly 2 long below 100 |
| Pomodoro.FormatTime | src/components/pomodoro/PomodoroTimer.tsx:31-35 | the `MM:SS` display; FormatTimeShape, FormatTimeLength and FormatTimeRoundTrip state its layout, length and round trip |
| Pomodoro.FormatTimeShape | src/components/pomodoro/PomodoroTimer.tsx:31-35 | the display is minutes, a colon and two digits; the minutes read back as s / 60 and the seconds as s % 60, always 00-59 |
| Pomodoro.FormatTimeLength | src/components/pomodoro/PomodoroTimer.tsx:31-35 | the display is exactly 5 characters iff s < 6000 |
| Pomodoro.FormatTimeRoundTrip | src/components/pomodoro/PomodoroTimer.tsx:31-35 | parsing the display back gives mins * 60 + secs == s |
| PomodoroComponent.PomodoroTimer.constructor | src/components/pomodoro/PomodoroTimer.tsx:16-21 | the component mounts in the initial state with no toasts |
| PomodoroComponent.PomodoroTimer.OffersPause | src/components/pomodoro/PomodoroTimer.tsx:209-241 | Pause is offered exactly when running, which is exactly when an interval is armed |
| PomodoroComponent.PomodoroTimer.StartTimer | src/components/pomodoro/PomodoroTimer.tsx:42-53 | the fields become the Start transition of the old state; invariant kept, no toast |
| PomodoroComponent.PomodoroTimer.PauseTimer | src/components/pomodoro/PomodoroTimer.tsx:55-61 | the fields become the Pause transition of the old state; invariant kept, no toast |
| PomodoroComponent.PomodoroTimer.ResetTimer | src/components/pomodoro/PomodoroTimer.tsx:63-70 | the fields become the Reset transition of the old state; invariant kept, no toast |
| PomodoroComponent.PomodoroTimer.HandleTimerComplete | src/components/pomodoro/PomodoroTimer.tsx:72-101 | the fields become the completion of the old state and exactly one toast is appended |
| PomodoroComponent.PomodoroTimer.Tick | src/components/pomodoro/PomodoroTimer.tsx:44-51 | the fields become the Tick transition of the old state; a toast is appended only on completion |
| PomodoroComponent.PomodoroTimer.SwitchMode | src/components/pomodoro/PomodoroTimer.tsx:103-107 | the fields become the SwitchMode transition of the old state; invariant kept, no toast |
| PomodoroComponent.PomodoroTimer.Unmount | src/components/pomodoro/PomodoroTimer.tsx:109-115 | the interval is disarmed and nothing else changes |
| Tasks.MockTasks | src/components/tasks/TaskList.tsx:54-95 | the four mock tasks have unique ids |
| Tasks.IsOverdue | src/components/tasks/TaskList.tsx:132 | the overdue flag; CompletedNeverOverdue and ToggleClearsOverdue relate it to the status |
| Tasks.CompletedNeverOverdue | src/components/tasks/TaskList.tsx:132 | a completed task is never overdue |
| Tasks.ToggleClearsOverdue | src/components/tasks/TaskList.tsx:255-265 | toggling an overdue task clears the flag; a toggled task is overdue iff it was completed and is past due |
| Tasks.ToggleTask | src/components/tasks/TaskList.tsx:258-261 | completed becomes todo with 0 sessions; otherwise completed with all planned sessions; other fields unchanged |
| Tasks.Toggle | src/components/tasks/TaskList.tsx:256-264 | toggle keeps the length and every id, and leaves each task with another id untouched |
| Tasks.ToggleFrame | src/components/tasks/TaskList.tsx:256-264 | toggle keeps length, order and every id, leaves other-id tasks untouched and toggles the matching ones |
| Tasks.ToggleUnknownId | src/components/tasks/TaskList.tsx:256-264 | toggling an id not in the list leaves it unchanged |
| Tasks.ToggleTwice | src/components/tasks/TaskList.tsx:258-261 | toggling twice restores a fully done completed task; any other task ends todo with 0 sessions, so an in-progress task is not restored |
| Tasks.ToggleKeepsUniqueIds | src/components/tasks/TaskList.tsx:255-265 | toggle preserves id uniqueness |
| Tasks.Delete | src/components/tasks/TaskList.tsx:267-269 | the result holds exactly the tasks of the list whose id differs, and is no longer |
| Tasks.DeleteExact | src/components/tasks/TaskList.tsx:267-269 | each task with another id keeps its multiplicity, those with the id are gone, and the survivors keep their relative order |
| Tasks.DeleteIdempotent | src/components/tasks/TaskList.tsx:267-269 | deleting the same id twice is the same as once |
| Tasks.DeleteKeepsUniqueIds | src/components/tasks/TaskList.tsx:267-269 | delete preserves id uniqueness |
| Tasks.FindIndex | src/components/tasks/TaskList.tsx:247-248 | the result is the first position holding the id, or -1 exactly when no task has it |
| Tasks.MoveAt | src/components/tasks/TaskList.tsx:250 | every position of the moved list holds the element of one position of the old list |
| Tasks.MoveSourceInjective | src/components/tasks/TaskList.tsx:250 | distinct positions of the moved list come from distinct old positions |
| Tasks.Move | src/components/tasks/TaskList.tsx:250 | the move keeps the length and puts the moved element at the target |
| Tasks.ArrayMove | src/components/tasks/TaskList.tsx:250 | the assumed arrayMove keeps length and multiset and puts the element at the target, a negative target counted from the end |
| Tasks.MoveShape | src/components/tasks/TaskList.tsx:250 | the move keeps length and multiset, puts the element at the target, and the rest reads as the old list without it |
| Tasks.DragOntoItself | src/components/tasks/TaskList.tsx:245 | dropping a task onto itself leaves the list unchanged |
| Tasks.DragEnd | src/components/tasks/TaskList.tsx:242-253 | every drop gives a permutation of the list of the same length |
| Tasks.DragOntoOther | src/components/tasks/TaskList.tsx:246-251 | dropping onto another task gives a permutation of the same length, the dragged task at the target's index, the others in their relative order |
| Tasks.DragOntoNothing | src/components/tasks/TaskList.tsx:245-251 | dropping over nothing moves the dragged task to the end, the others in their relative order |
| Tasks.MoveKeepsUniqueIds | src/components/tasks/TaskList.tsx:250 | moving one task keeps the ids unique |
| Tasks.DragKeepsUniqueIds | src/components/tasks/TaskList.tsx:242-253 | reorder preserves id uniqueness |
| TaskListComponent.TaskList.constructor | src/components/tasks/TaskList.tsx:233 | the list starts as the mock tasks, ids unique |
| TaskListComponent.TaskList.HandleToggleComplete | src/components/tasks/TaskList.tsx:255-265 | the list becomes the toggled old list, ids still unique |
| TaskListComponent.TaskList.HandleDelete | src/components/tasks/TaskList.tsx:267-269 | the list becomes the old list without the id, ids still unique |
| TaskListComponent.TaskList.HandleDragEnd | src/components/tasks/TaskList.tsx:242-253 | the list becomes the reordered old list, ids still unique |

## Left out

- Pomodoro.Complete, Pomodoro.Tick: after a countdown completes, `timeLeft` is the next phase's full length, the value `handleTimerComplete` sets (lines 86 and 94). The tick updater then returns 0 (line 48), and which value the component ends with depends on the order of React's update queue. The model takes the intended value; Pomodoro.TickAsWritten models the 0 (see Findings).
- Rendering, animation, the SVG ring, colours and icons (`getStateColor`, `getStateIcon`, `priorityColors`, `statusIcons`): presentation only.
- The scheduling of the interval (`setInterval`/`clearInterval`), React's batching of state updates and stale closures: the tick is the explicit method `Tick`, and the handle is the flag `armed`. A tick arrives only while the flag is set.
- The text of the toasts and the toast display: a toast is recorded as a ghost event (work completed with the next break, or break finished).
- `formatTime` takes a natural number. It is only called with `timeLeft`, which is never negative, so negative and fractional inputs are not modelled.
- `getProgress` is computed over exact reals, not floating point.
- The progress bar width of a task row (`completedSessions / pomodoroSessions * 100`) is left out. It is floating point, and it divides by zero when a task plans no sessions.
- Parsing the due-date string and reading the clock (`new Date`) are left out: the due date is stored as an instant and `now` is a parameter.
- The drag and drop sensors and gestures are left out. The code of `arrayMove` is not part of this model: its meaning is assumed, as described above.
- The calendar, dashboard charts, settings, layout and pages render constant data. The search and filter state of the tasks page is never applied to the list, and its form submit only logs. None of them is modelled.

## Findings

| source | as written | input that shows it | evidently intended | confidence | as-written member | corrected member |
|---|---|---|---|---|---|---|
| src/components/pomodoro/PomodoroTimer.tsx:45-49 | the updater calls `handleTimerComplete`, which queues `setTimeLeft(duration(next))`, and then returns 0; if the queued length is applied first, the 0 overwrites it | a running work phase with 1 s left receives one tick: the short break shows 00:00, and after Start it completes after one tick | the next phase starts at its full length (lines 86 and 94) | medium, not executed | Pomodoro.AsWrittenSkipsNextPhase | Pomodoro.CompletionStartsFullPhase |
