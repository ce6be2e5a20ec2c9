# Weekly task placement, modelled in Dafny

This project models the placement problem behind a weekly task scheduler.
Each task has an id, a name, a preferred "HH:MM" start and a duration in whole
hours. A state is the sequence of `(id, start, duration)` placements made so
far. Placing a task tries the preferred start on Monday, then the same time
on each later day up to Sunday. It keeps the first candidate whose interval
overlaps no placement already in the state. When all seven candidates
conflict, the state comes back unchanged and the problem's "schedule full"
flag is raised. A state is a goal when it holds as many placements as there
are tasks. The heuristic that orders the search counts seconds of slack
before Sunday 23:59, plus one hour for each task beyond the number of
placements.

Files:

- `time.dfy` (module `Time`): timestamps are whole minutes since
  1900-01-01 00:00. That is the date `strptime("%H:%M")` produces, and it is
  a Monday. So `parse_time("HH:MM")` is `60*H + M` on day 0, and
  `add_days(t, d)` is `t + 1440*d`.
- `schedule.dfy` (module `Schedule`): the task and placement datatypes, the
  overlap test, the first-fit specification (`FirstFree`, `Place`), and the
  class `ScheduleProblem`. The class holds the task list and the mutable
  `scheduleFull` flag. Its `Result` method keeps the two nested loops of
  `result` in PythonApplication5.py, with the early `break` and the early
  `return`, and is proved equal to `Place`. The class also has `Actions`, `IsGoal` and `Heuristic`, and
  lemmas about the states reachable from `()`.
- `scenarios.dfy` (module `Scenarios`): the first-fit rule on particular
  inputs. These are the empty state, a free preferred slot, two tasks at the
  same slot, and eight all-day tasks.

Behaviour of the code that the model keeps:

- There is no day-boundary or 24-hour check in `result`. A task longer than
  a day is still placed whenever one of its seven candidates is free. On the
  empty state, every task is placed at its preferred Monday start
  (`Scenarios.PlaceOnEmpty`). So it is not true that a task over 24 hours can
  never be placed.
- Overlap compares absolute timestamps, with no wrap-around at the end of the
  week. A Sunday task that runs past midnight ends on day 7. It does not
  conflict with a Monday-morning task.
- Durations are not checked for sign. `add_task` (line 153) takes
  `int(...)` of the duration text and stores it as it is. The overlap test
  is symmetric whatever the sign, so a task's `duration` is an unbounded
  `int` and no precondition is placed on it.
- Goal detection relies on distinct task ids, which `uuid4` in `add_task`
  provides. If two tasks shared an id, placing one would hide the other:
  `actions` offers only tasks whose id is unplaced (`NoActionsIffAllPlaced`),
  and a reachable state places each id at most once (`ReachableInvariant`).
  So no action would be left while `len(state) < len(tasks)`, and `is_goal`
  would never hold.
- The heuristic is not clamped. It goes negative once placements run past
  Sunday 23:59 by more than the unplaced tasks' allowance
  (`HeuristicNotClamped`).

## Model

| member | source | states |
|---|---|---|
| `Time.ParseTime` | PythonApplication5/PythonApplication5.py:14-16 | "HH:MM" becomes a timestamp on Monday of the base week, within its first day; reading back hour and minute gives the parsed fields |
| `Time.AddDays` | PythonApplication5/PythonApplication5.py:18-20 | shifting by `d` days keeps the time of day and moves the day index by exactly `d` |
| `Schedule.Overlaps` | PythonApplication5/PythonApplication5.py:56-57 | the code's test `!(cs >= ee or ce <= es)`; it gives the same answer with its arguments swapped |
| `Schedule.OverlapsIffSharedMinute` | PythonApplication5/PythonApplication5.py:56-57 | for positive durations the test holds iff some minute lies in both half-open intervals |
| `Schedule.Candidate` | PythonApplication5/PythonApplication5.py:49-51 | the candidate for offset `d` carries the task's id and duration, starts on day `d` at the task's preferred time of day |
| `Schedule.FirstFree` | PythonApplication5/PythonApplication5.py:49-63 | returns the least offset in `from..6` whose candidate overlaps no placement; every offset before it conflicts; it returns none exactly when all of them conflict |
| `Schedule.Place` | PythonApplication5/PythonApplication5.py:45-67 | the old state is a prefix of the result and the length grows by at most one; the state is unchanged exactly when all seven offsets conflict; otherwise the appended triple is the candidate at the first-fit offset, which overlaps nothing in the state; pairwise non-overlap is preserved |
| `Schedule.PlaceAtFirstFit` | PythonApplication5/PythonApplication5.py:61-63 | when offset `d` is the first fit, `result` appends exactly the candidate at `d` |
| `Schedule.FirstFitUnique` | PythonApplication5/PythonApplication5.py:49-63 | the first-fit offset is unique |
| `Schedule.Unplaced` | PythonApplication5/PythonApplication5.py:43 | keeps exactly the tasks whose id is not among the placed ids, each with its multiplicity, in list order |
| `Schedule.ScheduleProblem.constructor` | PythonApplication5/PythonApplication5.py:37-40 | keeps the task list and starts with the schedule-full flag cleared |
| `Schedule.ScheduleProblem.Actions` | PythonApplication5/PythonApplication5.py:42-43 | a task is offered iff it is in the list and its id is not among `[s[0] for s in state]`; multiplicities and list order are kept |
| `Schedule.ScheduleProblem.Result` | PythonApplication5/PythonApplication5.py:45-67 | the nested loops return what `Place` specifies; when the state comes back unchanged every offset conflicted; the flag is raised exactly on that outcome and is never cleared |
| `Schedule.ScheduleProblem.IsGoal` | PythonApplication5/PythonApplication5.py:69-70 | a state is a goal iff it holds as many placements as there are tasks; a non-empty goal scores only its slack to Sunday 23:59, with no allowance for unplaced tasks |
| `Schedule.ScheduleProblem.Heuristic` | PythonApplication5/PythonApplication5.py:72-88 | the empty state scores the task count; otherwise the score is the smallest per-placement slack to Sunday 23:59, in seconds, plus 3600 × (`len(tasks)` − `len(state)`), attained by some placement |
| `Schedule.MaxEnd` | PythonApplication5/PythonApplication5.py:77-80 | the latest end is the end of some placement and no placement ends later |
| `Schedule.ScheduleProblem.ReachableStep` | PythonApplication5/PythonApplication5.py:42-67 | applying `result` to an offered action keeps a state reachable from `()` |
| `Schedule.ScheduleProblem.ReachableInvariant` | PythonApplication5/PythonApplication5.py:42-67 | every reachable state is pairwise non-overlapping, places each id at most once, and each placement is some task at its preferred time of day on a day 0..6 with the task's duration |
| `Schedule.PlaceKeepsDistinctIds` | PythonApplication5/PythonApplication5.py:62-63 | placing a task whose id is not yet placed keeps the placed ids distinct |
| `Schedule.PlaceKeepsRealised` | PythonApplication5/PythonApplication5.py:49-63 | placing a listed task keeps every placement tied to a listed task |
| `Schedule.RealisedIdsAreTaskIds` | PythonApplication5/PythonApplication5.py:43 | every placed id is the id of a listed task |
| `Schedule.ScheduleProblem.ReachableAtPreferredStart` | PythonApplication5/PythonApplication5.py:49-63 | when no two tasks' preferred Monday slots overlap, every placement of a reachable state is some task at its preferred start, offset 0 |
| `Schedule.ScheduleProblem.NoActionsIffAllPlaced` | PythonApplication5/PythonApplication5.py:43 | no action is offered iff every task's id has been placed |
| `Schedule.ScheduleProblem.GoalIffAllPlaced` | PythonApplication5/PythonApplication5.py:69-70 | with distinct task ids, a reachable state has as many placements as tasks iff no action is left iff every task is placed |
| `Schedule.ScheduleProblem.PlacingLowersHeuristic` | PythonApplication5/PythonApplication5.py:72-88 | a successful placement into a non-empty state lowers the heuristic by at least 3600 |
| `Schedule.ScheduleProblem.HeuristicNotClamped` | PythonApplication5/PythonApplication5.py:81-88 | a placement ending late enough past Sunday 23:59 makes the heuristic negative |
| `Scenarios.PlaceOnEmpty` | PythonApplication5/PythonApplication5.py:45-63 | on the empty state any task, of any duration, is placed at offset 0: Monday, at its preferred hour and minute |
| `Scenarios.PreferredSlotWins` | PythonApplication5/PythonApplication5.py:49-63 | a task whose preferred slot is free is placed at its preferred start |
| `Scenarios.SingleTaskAtNine` | PythonApplication5/PythonApplication5.py:45-63 | one task at 09:00 for 3 hours gives the single triple at Monday 09:00 with duration 3 |
| `Scenarios.SameSlotMovesToNextDay` | PythonApplication5/PythonApplication5.py:49-63 | two 2-hour tasks at 09:00: the first takes Monday 09:00, the second Tuesday 09:00 |
| `Scenarios.AllDayTakesNextDay` | PythonApplication5/PythonApplication5.py:49-63 | with days 0..k-1 filled by all-day placements, an all-day task takes day k |
| `Scenarios.FullWeekRejects` | PythonApplication5/PythonApplication5.py:49-67 | with all seven days filled, every offset of a task of positive duration conflicts and the state is unchanged |
| `Scenarios.AllDayTasksFillDays` | PythonApplication5/PythonApplication5.py:45-63 | placing all-day tasks one after another fills consecutive days |
| `Scenarios.SevenAllDayTasksFillWeek` | PythonApplication5/PythonApplication5.py:45-67 | seven all-day tasks placed in turn fill Monday to Sunday; an eighth conflicts at every offset and leaves the state unchanged |
| `Scenarios.EighthAllDayTaskRejected` | PythonApplication5/PythonApplication5.py:45-67 | placing eight all-day tasks in turn yields exactly the seven placements of the first seven |

## Left out

- The greedy best-first search driver (`simpleai.search.greedy`) is a foreign library. Its frontier, ordering and duplicate handling are not part of this model. `Reachable` covers every state any driver can build by applying `result` to actions from `actions`, starting from `()`.
- The PyQt5 window (`SchedulerApp`): widgets, message boxes, table painting and its clipping at hour 24. This is UI code.
- Saving and loading the task list as JSON (`save_tasks_to_file`, `load_tasks_from_file`). This is file I/O.
- Id generation with `uuid.uuid4()` and completion times from `datetime.now()`. Both are nondeterministic external calls. Ids are opaque strings compared only for equality.
- Parsing of the "HH:MM" text and its `ValueError` paths, and `int()` of the duration text. Hour and minute arrive already validated, as the subset types `Hour` (0..23) and `Minute` (0..59).
- `timedelta.total_seconds()` returns a float. Every value here is a whole number of seconds, so the heuristic is an `int`.
- Python's `OverflowError` for datetimes outside years 1 to 9999 is not modelled. It needs a duration of tens of millions of hours. Timestamps here are unbounded integers.
- The task's `name` is carried but plays no part in placement, as in `result` (PythonApplication5.py:45-67).
