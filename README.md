# Listr dot grid and task dashboard, in Dafny

This project models two React components of the Listr web app.

**The dot grid** (`src/components/DotGrid.jsx`) is the animated background canvas. On mount, and on every throttled window resize, it lays out a grid of dots centred in its wrapper.

- **Mouse moves.** Each throttled `mousemove` records the pointer in the wrapper's coordinates. It then asks each dot for one of three responses:
  - a short `power2.out` push away from a nearby pointer;
  - an `elastic.out` return home for a displaced dot when the pointer is far;
  - nothing.
- **Drawing.** Every animation frame draws each dot at its base position plus its offset. A dot within the radius is coloured by a per-channel blend from the base colour to the active colour; a dot outside the radius gets the base colour string.
- **Colours.** Both colours come from `hexToRgb`, a strict six-digit hex parser that falls back to black.

**The dashboard** (`src/components/Dashboard.jsx`) holds a task list and an activity log.

- **Task actions.** You can add a task (blank input is ignored), toggle a task by id, save an edited task, and delete a task by id.
- **Activity log.** Every action logs an entry. The log keeps the 50 newest entries, newest first.
- **Progress.** The dashboard shows the number of completed tasks, a rounded percentage, and a progress ring whose dash offset follows the percentage.
- **`formatTime`.** This function turns a 24-hour `H:MM` string into 12-hour text. The component defines it but never calls it: the list shows each task's stored time.

## Structure

- **How JavaScript values are modelled:**
  - numbers are mathematical `real`s and `int`s;
  - strings are `seq<char>`;
  - `Math.sqrt` is an input, described by its square (`Repulsion.IsDistance`).
- **Where state lives.** The state each component mutates is a class:
  - `Throttling.Throttle` is one `throttle` closure's `lastCall`;
  - `DotGridEngine.Engine` holds the dots, the pointer, and the tween last requested for each dot;
  - `DashboardState.Dashboard` holds `tasks`, `activityLog`, the inputs, and the pending edit and deletion.
- **The clock.** Every action that reads the clock (`performance.now()`, `Date.now()`, `toISOString()`) takes the time as a parameter.
- **What the methods are proved against.** Each method's `ensures` ties its new state to a pure function: `Grid`, `Respond`, `Overwrite`, `Logged`, `LogAll`, `Toggled`, `Replaced`, `Removed` and `Find`. The modules beside the classes prove what those functions promise.

| file | module | models |
|---|---|---|
| jsnumbers.dfy | `JsNumbers` | `Math.round`, JavaScript's truncating `%`, `Option` |
| throttling.dfy | `Throttling` | `throttle` and the two limits |
| colormodel.dfy | `ColorModel` | `hexToRgb`, the colour blend in `draw` |
| gridbuilder.dfy | `GridBuilder` | the geometry of `buildGrid` |
| repulsion.dfy | `Repulsion` | the per-dot decision in `onMove` |
| dotgrid.dfy | `DotGridEngine` | the component: build, move, resize, draw |
| jsstrings.dfy | `JsStrings` | `trim`, `includes`, `parseInt`, integer printing |
| timeformat.dfy | `TimeFormat` | `formatTime` |
| tasks.dfy | `TaskList` | the values the dashboard actions compute, and progress |
| dashboard.dfy | `DashboardState` | the dashboard's state and actions |

## Model

| member | source | states |
|---|---|---|
| Throttling.Throttle.constructor | src/components/DotGrid.jsx:5-6 | a fresh throttle has the given limit and `lastCall` 0 |
| Throttling.Throttle.Call | src/components/DotGrid.jsx:7-13 | a call is forwarded iff at least `limit` ms have passed since the last forwarded call; only a forwarded call moves `lastCall`, to `now` |
| Throttling.Forwarded | src/components/DotGrid.jsx:5-14 | the calls a throttle forwards out of a run of calls: never more than were made, and the first call is forwarded once `limit` has passed (spacing and membership in `ForwardedSpaced`, `ForwardedFromCalls`) |
| Throttling.ForwardedSpaced | src/components/DotGrid.jsx:5-14 | over any sequence of calls, the forwarded ones are at least `limit` apart, the first at least `limit` after the initial `lastCall` |
| Throttling.ForwardedFromCalls | src/components/DotGrid.jsx:5-14 | every forwarded call is one of the calls made; there are no extra (trailing) calls |
| Throttling.ForwardedAllSpaced | src/components/DotGrid.jsx:5-14 | calls that already keep the spacing are all forwarded: only calls inside a window are dropped |
| Throttling.LeadingEdge | src/components/DotGrid.jsx:9-12 | of two calls in one window, the first is forwarded and the second dropped |
| ColorModel.HexToRgb | src/components/DotGrid.jsx:17-25 | the result is always a colour with channels in 0..255, and black for any string that does not match the pattern |
| ColorModel.Matches | src/components/DotGrid.jsx:18 | defines the regex test: six hex digits, optionally after `#`; `MatchedDigits` and `CaseInsensitive` state what a match gives |
| ColorModel.HexRoundTrip | src/components/DotGrid.jsx:17-25 | every colour is read back from its six-digit hex text, with or without `#` |
| ColorModel.ParseThenPrint | src/components/DotGrid.jsx:18-24 | a matching string's six digits are recovered, lower-cased, from the colour it denotes, so the parse keeps all the information |
| ColorModel.CaseInsensitive | src/components/DotGrid.jsx:18 | the `i` flag: lower-casing the input changes neither whether it matches nor the colour |
| ColorModel.ExampleActive | src/components/DotGrid.jsx:17-25 | the default active colour `6600FF`, and `#6600ff`, both give (102,0,255) |
| ColorModel.ExampleBase | src/components/DotGrid.jsx:17-25 | the default base colour `#333333` gives (51,51,51) |
| ColorModel.ExampleNoMatch | src/components/DotGrid.jsx:17-19 | a non-hex digit and a seventh digit both make the pattern fail, giving black |
| ColorModel.MatchedDigits | src/components/DotGrid.jsx:18-24 | a matching string ends in six hex digits and each channel is the base-16 value of its pair |
| ColorModel.Lerp | src/components/DotGrid.jsx:119-121 | one rounded channel of the blend lies between the two channels for t in [0,1], and equals the base at t = 0 and the active channel at t = 1 |
| ColorModel.Blend | src/components/DotGrid.jsx:119-122 | the blended colour is a valid colour for t in [0,1], the base colour at t = 0, the active colour at t = 1 |
| ColorModel.RoundedBetween | src/components/DotGrid.jsx:119-121 | `Math.round` of the interpolation stays between the channels and meets them at the ends |
| ColorModel.DotFillRegimes | src/components/DotGrid.jsx:113-123 | with a positive radius, a dot is blended iff `dsq <= proximity^2` (inclusive); the blend lies between base and active, is the active colour under the pointer and the base colour on the edge; outside, the style is the `baseColor` string |
| ColorModel.ZeroRadius | src/components/DotGrid.jsx:115-117 | with radius 0 only a pointer exactly on the dot reaches the blend, where `0/0` makes the style NaN |
| ColorModel.DotFill | src/components/DotGrid.jsx:113-123 | defines a dot's fill style from its squared distance; its three cases are stated by `DotFillRegimes` and `ZeroRadius` |
| ColorModel.WeightInRange | src/components/DotGrid.jsx:117 | inside the radius the weight `1 - dist/proximity` lies in [0,1] |
| GridBuilder.Grid | src/components/DotGrid.jsx:71-85 | the dots `buildGrid` stores number `(rows+1) * (cols+1)` (positions in `GridShape`) |
| GridBuilder.GridShape | src/components/DotGrid.jsx:71-85 | the grid has `(floor(w/gap)+1) * (floor(h/gap)+1)` dots in row-major order, the dot of column x and row y at index `y*cols + x` at `(startX + x*gap, startY + y*gap)`, and every dot starts at rest |
| GridBuilder.RowsLength | src/components/DotGrid.jsx:79-85 | the first k rows hold k times the column count of dots |
| GridBuilder.RowsAt | src/components/DotGrid.jsx:79-85 | the dot of column x and row y is at index `y*cols + x` |
| GridBuilder.RowsAtRest | src/components/DotGrid.jsx:83 | every built dot has zero offsets and is not animating |
| GridBuilder.Centred | src/components/DotGrid.jsx:71-76 | the margin before the first dot equals the margin after the last, and lies in [0, gap/2) |
| GridBuilder.FloorBelow | src/components/DotGrid.jsx:71 | the whole gaps never overrun the side |
| GridBuilder.FloorAbove | src/components/DotGrid.jsx:71 | less than one gap of the side is left over |
| GridBuilder.ZeroSize | src/components/DotGrid.jsx:71-85 | a container of size 0 still gets one dot, at its corner |
| GridBuilder.UnitSquare | src/components/DotGrid.jsx:71-85 | size 1 with gap 1 gives the four corners, row by row |
| Repulsion.Push | src/components/DotGrid.jsx:165-166 | the push times the radius is the strength times how far inside the radius the pointer is |
| Repulsion.PushTarget | src/components/DotGrid.jsx:163-169 | defines the push target from `-cos(angle) * push`, `-sin(angle) * push`; `PushTargetAway` states its length and direction |
| Repulsion.PushRange | src/components/DotGrid.jsx:165-166 | a positive strength pushes every dot inside the radius by more than 0 and at most the strength, and by all of it at distance 0 |
| Repulsion.PushMonotone | src/components/DotGrid.jsx:165-166 | the closer dot is pushed at least as far |
| Repulsion.UnitDirection | src/components/DotGrid.jsx:163-169 | `(cos, sin)` of the angle, as `(dx, dy) / dist`, is a unit vector |
| Repulsion.PushTargetAway | src/components/DotGrid.jsx:163-169 | the target is `push` away from the base, straight away from the pointer; a dot under the pointer goes left, since `atan2(0,0)` is 0 |
| Repulsion.InsideBySquares | src/components/DotGrid.jsx:161 | the strict test `dist < proximity` holds iff the radius is positive and `dsq < proximity^2` |
| Repulsion.Respond | src/components/DotGrid.jsx:156-188 | defines the per-dot request of `onMove`; `RespondRegimes` states its three regimes |
| Repulsion.RespondRegimes | src/components/DotGrid.jsx:156-188 | the three regimes: push (0.3 s, `power2.out`) iff `dist < proximity`; return home (`returnDuration`, `elastic.out(1, 0.3)`) iff outside and displaced; nothing iff outside and at rest |
| Repulsion.SettledStaysSettled | src/components/DotGrid.jsx:179-188 | once a return has finished, a pointer that stays far requests nothing more |
| Repulsion.LatestRequestWins | src/components/DotGrid.jsx:171-188 | `overwrite: "auto"`: once a move has requested a tween, later moves that request nothing leave it running, whatever ran before, so the running tween is always the latest request |
| Repulsion.NoRequestKeeps | src/components/DotGrid.jsx:156-188 | moves that request nothing leave the running tween as it was |
| Repulsion.Examples | src/components/DotGrid.jsx:156-188 | with the default props, a pointer on a dot pushes it 20 left, at 100 px it pushes 10, and far away a displaced dot returns while a resting one is left alone |
| DotGridEngine.ToLocal | src/components/DotGrid.jsx:150-153 | the stored pointer plus the wrapper's left/top is the client position |
| DotGridEngine.Engine.constructor | src/components/DotGrid.jsx:27-45 | mounting fixes the props and parsed colours, starts both throttles at 0 and the pointer at the origin, and builds the grid once |
| DotGridEngine.Engine.BuildGrid | src/components/DotGrid.jsx:56-87 | the nested loops store exactly `Grid(width, height, gap)` and no dot has a running tween |
| DotGridEngine.Engine.BuildRow | src/components/DotGrid.jsx:80-84 | the inner loop pushes the dots of one row left to right, `gap` apart from the left margin, at rest |
| DotGridEngine.Engine.OnMove | src/components/DotGrid.jsx:149-190 | the pointer becomes the local position and every dot's running tween is overwritten by the tween `Respond` picks for it; the dots are unchanged |
| DotGridEngine.Engine.HandleMouseMove | src/components/DotGrid.jsx:192-193 | a move runs `onMove` iff 16 ms have passed since the last handled move; a dropped move changes neither the pointer nor the tweens |
| DotGridEngine.Engine.HandleResize | src/components/DotGrid.jsx:140-145 | a resize rebuilds the grid iff 100 ms have passed since the last throttled rebuild (`lastCall` starts at 0, and the build on mount does not pass the throttle); a dropped resize changes nothing |
| DotGridEngine.Engine.FinishTween | src/components/DotGrid.jsx:172-187 | a finished tween leaves the dot at its target offsets, with no running tween |
| DotGridEngine.Engine.Advance | src/components/DotGrid.jsx:171-187 | while a tween runs, gsap may move the dot's offsets to any point it has reached; the tween keeps running and nothing else changes |
| DotGridEngine.Engine.Draw | src/components/DotGrid.jsx:104-130 | one frame paints every dot in order, at base plus offset, with radius `dotSize/2` and the fill `DotFill` gives for its distance |
| DotGridEngine.Engine.Paint | src/components/DotGrid.jsx:104-127 | defines how one dot is painted: radius `dotSize/2` at base plus offset, the fill from `DotFill` for the base distance; `PushedDotsAreLit` relates it to `onMove` |
| DotGridEngine.Engine.PushedDotsAreLit | src/components/DotGrid.jsx:161 | every pushed dot is drawn blended; the only blended dots not pushed lie exactly on the radius |
| JsNumbers.Round | src/components/DotGrid.jsx:119-121 | `Math.round` is the integer within half of x, halves going up |
| JsNumbers.RoundBetween | src/components/Dashboard.jsx:130 | rounding a value between two integers stays between them |
| JsNumbers.JsRem12 | src/components/Dashboard.jsx:56 | JavaScript's `h % 12` lies strictly between -12 and 12, differs from h by a multiple of 12, takes the sign of h, and is 0 exactly at multiples of 12 |
| JsStrings.TrimStart | src/components/Dashboard.jsx:62 | the result is a suffix that does not start with white space, and everything cut off is white space |
| JsStrings.Trim | src/components/Dashboard.jsx:62 | `trim()` never lengthens the text and leaves no white space at either end (`TrimEmpty` states when it is empty) |
| JsStrings.TrimEnd | src/components/Dashboard.jsx:62 | the result is a prefix that does not end with white space, and everything cut off is white space |
| JsStrings.TrimEmpty | src/components/Dashboard.jsx:62 | `!s.trim()` holds exactly for strings made of white space only |
| JsStrings.ContainsAt | src/components/Dashboard.jsx:52 | `includes` finds t iff t occurs at some position of s |
| JsStrings.ContainsSuffix | src/components/Dashboard.jsx:52 | a string includes each of its suffixes |
| JsStrings.NotContains | src/components/Dashboard.jsx:52 | a pattern whose first character never occurs is not included |
| JsStrings.DigitRun | src/components/Dashboard.jsx:54 | the digits `parseInt` reads are the longest run of digits at the start |
| JsStrings.NatDigits | src/components/Dashboard.jsx:57 | the printed digits of n denote n and have no leading zero |
| JsStrings.ParseDecimal | src/components/Dashboard.jsx:54-57 | `parseInt` reads back the text a template literal prints for every integer |
| JsStrings.ParseInt | src/components/Dashboard.jsx:54 | defines `parseInt`: leading white space, an optional sign, a `0x` prefix, then the longest digit run; `ParseDecimal`, `ParseRun` and `NegateTwice` state what it reads |
| JsStrings.NegateTwice | src/components/Dashboard.jsx:54 | the sign flip of a leading `-` is undone by a second one, NaN included |
| JsStrings.ParseRun | src/components/Dashboard.jsx:54 | the result is NaN exactly when the text does not start with a digit of the radix |
| JsStrings.ParseRunAll | src/components/Dashboard.jsx:54 | a text made only of digits is read whole |
| TimeFormat.Hours | src/components/Dashboard.jsx:53 | the hour field is the text before the first colon |
| TimeFormat.Hour12 | src/components/Dashboard.jsx:56 | `h % 12 \|\| 12` is never 0 and differs from h by a multiple of 12; NaN gives 12; for h >= 0 it lies in 1..12 |
| TimeFormat.TwelveHourRoundTrip | src/components/Dashboard.jsx:55-56 | every hour 0..23 is read back from its 12-hour number and `am`/`pm` (12 standing for 0, `pm` adding 12), so `h12` and `ampm` together lose nothing |
| TimeFormat.FormatTime | src/components/Dashboard.jsx:50-58 | defines `formatTime` (defined in the dashboard but never called); `FormatTimeCases`, `FormatTimeIdempotent` and `TwentyFourHour` state what it gives |
| TimeFormat.FormatTimeCases | src/components/Dashboard.jsx:50-58 | empty text gives empty text, text with `am` or `pm` is unchanged, and any other text ends in ` am` or ` pm` |
| TimeFormat.FormatTimeIdempotent | src/components/Dashboard.jsx:50-58 | formatting an already formatted time changes nothing |
| TimeFormat.ParseDigits | src/components/Dashboard.jsx:54 | `parseInt` of a run of decimal digits is its value |
| TimeFormat.HoursBeforeColon | src/components/Dashboard.jsx:53 | the hour field of `hh:rest` is `hh` |
| TimeFormat.TwentyFourHour | src/components/Dashboard.jsx:53-57 | a digit time `hh:mm` becomes the 12-hour form of hh, the same minutes, and `am`/`pm` by hh >= 12 |
| TimeFormat.MidnightHour | src/components/Dashboard.jsx:55-57 | hour 0 shows as 12 am |
| TimeFormat.MorningHour | src/components/Dashboard.jsx:55-57 | hours 1 to 11 keep their number and say am |
| TimeFormat.NoonHour | src/components/Dashboard.jsx:55-57 | hour 12 shows as 12 pm |
| TimeFormat.AfternoonHour | src/components/Dashboard.jsx:55-57 | hours 13 to 23 lose 12 and say pm |
| TimeFormat.HourPeriods | src/components/Dashboard.jsx:55-56 | over the hours 0..23 the 12-hour number and `am`/`pm` split into midnight, morning, noon and afternoon |
| TimeFormat.NoColon | src/components/Dashboard.jsx:53-57 | text without a colon is read whole as the hour and prints `undefined` minutes |
| TimeFormat.ExampleMidnight | src/components/Dashboard.jsx:50-58 | `00:15` gives `12:15 am` |
| TimeFormat.ExampleAfternoon | src/components/Dashboard.jsx:50-58 | `13:05` gives `1:05 pm` |
| TimeFormat.ExamplePassThrough | src/components/Dashboard.jsx:52 | `9:30 am` is shown as it is |
| TaskList.Logged | src/components/Dashboard.jsx:45-48 | the new entry goes first, the previous entries follow in order, and at most 50 are kept |
| TaskList.Reversed | src/components/Dashboard.jsx:47 | the reverse of a sequence holds its elements last first |
| TaskList.LogAllNewestFirst | src/components/Dashboard.jsx:45-48 | logging several entries in turn leaves them newest first ahead of the old log, cut at 50 |
| TaskList.LoggedOfCut | src/components/Dashboard.jsx:47 | cutting the log at 50 before adding an entry gives the same log as cutting after it |
| TaskList.LogAllCapped | src/components/Dashboard.jsx:47 | a log within 50 entries stays within 50 |
| TaskList.Toggled | src/components/Dashboard.jsx:80-86 | toggling keeps the length |
| TaskList.ToggleEffect | src/components/Dashboard.jsx:79-87 | toggling flips `completed` on exactly the tasks with the id and changes nothing else, nor the order |
| TaskList.ToggleTwice | src/components/Dashboard.jsx:79-87 | toggling the same id twice restores the list |
| TaskList.ToggleEntries | src/components/Dashboard.jsx:81-82 | toggling logs at most one entry per task, every one stamped with the time of the toggle (one per matching task in `ToggleEntriesCount`) |
| TaskList.Matching | src/components/Dashboard.jsx:81 | no more tasks carry the id than the list holds |
| TaskList.ToggleEntriesCount | src/components/Dashboard.jsx:81-82 | toggling logs one entry per task with the id, and none when no task has it |
| TaskList.Replaced | src/components/Dashboard.jsx:91 | replacing keeps the length |
| TaskList.ReplaceEffect | src/components/Dashboard.jsx:91 | every task with the edited id becomes the edited task, every other task stays in place, and replacing again changes nothing |
| TaskList.Removed | src/components/Dashboard.jsx:99 | removing never lengthens the list |
| TaskList.RemovedMembers | src/components/Dashboard.jsx:99 | the tasks left are exactly the tasks without the id |
| TaskList.RemovedSplits | src/components/Dashboard.jsx:99 | removal works piece by piece, so the tasks kept stay in their order |
| TaskList.RemovedCount | src/components/Dashboard.jsx:99 | exactly the matching tasks are dropped, and a list without the id is left as it is |
| TaskList.Find | src/components/Dashboard.jsx:98 | a found task is in the list and has the id; nothing is found iff no task has the id |
| TaskList.FindFirst | src/components/Dashboard.jsx:98 | the task found is the first with the id |
| TaskList.CompletedCount | src/components/Dashboard.jsx:129 | `completedCount` never exceeds the number of tasks |
| TaskList.CompletedCountExtremes | src/components/Dashboard.jsx:129 | the count equals the length iff every task is completed, and is 0 iff none is |
| TaskList.CompletedCountPrepend | src/components/Dashboard.jsx:129 | adding a task that is not completed keeps the count |
| TaskList.FractionInUnit | src/components/Dashboard.jsx:130 | completed over total lies in [0,1] |
| TaskList.ProgressPercent | src/components/Dashboard.jsx:130 | `progressPercent` always lies in 0..100 |
| TaskList.ProgressBounds | src/components/Dashboard.jsx:130 | the percentage lies in 0..100, is 0 with nothing completed (or no tasks), and 100 when every task is completed |
| TaskList.ShareShrinks | src/components/Dashboard.jsx:130 | spreading a count over one more task gives a smaller share |
| TaskList.AddNeverRaisesProgress | src/components/Dashboard.jsx:129-130 | adding a task never raises the percentage |
| TaskList.RingOffset | src/components/Dashboard.jsx:437 | for a percentage in 0..100 the dash offset lies in [0, 377], and it is the whole ring exactly at 0% |
| TaskList.RingOffsetRange | src/components/Dashboard.jsx:437 | the ring offset lies in [0, 377]: 377 at 0%, 0 at 100% |
| DashboardState.Dashboard.constructor | src/components/Dashboard.jsx:10-32 | mounting loads the saved tasks and log, with empty inputs and no pending edit or deletion |
| DashboardState.Dashboard.AddActivity | src/components/Dashboard.jsx:45-48 | only the log changes, to the log with the new entry first and capped at 50 |
| DashboardState.Dashboard.HandleAddTask | src/components/Dashboard.jsx:61-77 | blank input changes nothing; otherwise one open task with id `now`, the picked time and no comments goes first, its addition is logged, and the inputs are cleared |
| DashboardState.ToggleWalk | src/components/Dashboard.jsx:80-86 | the one pass of `tasks.map` yields exactly the toggled list, and logging each match as it is met yields the log with those entries added in list order |
| DashboardState.Dashboard.ToggleTask | src/components/Dashboard.jsx:79-87 | the tasks become the toggled list and the log gains one entry per matching task, in list order; nothing else changes |
| DashboardState.Dashboard.SaveEdit | src/components/Dashboard.jsx:89-94 | with no edit nothing changes; otherwise tasks with the edited id are replaced, the update is logged, and the edit closes |
| DashboardState.Dashboard.ConfirmDelete | src/components/Dashboard.jsx:96-103 | with no truthy pending id nothing changes; otherwise exactly the tasks with the id are removed, the deletion is logged with the first such task's content (`undefined` if none), and nothing is pending |
| DashboardState.Dashboard.Completed | src/components/Dashboard.jsx:129 | the shown completed count is at most the number of tasks |
| DashboardState.Dashboard.Progress | src/components/Dashboard.jsx:130 | the shown percentage lies in 0..100 and is 0 with no tasks |

## Left out

- Where the code and a natural reading of what it should do differ, the model follows the code:
  - `hexToRgb` falls back to black rather than failing;
  - a zero-size wrapper still gets one dot;
  - a displaced dot's return tween is requested again on every handled move while the pointer stays far and the dot is not yet home;
  - a pending deletion of id 0 is ignored, because 0 is falsy.
- Time and host calls:
  - `performance.now()`, `Date.now()` and `new Date().toISOString()` are parameters (`now`, `stamp`);
  - `getBoundingClientRect()` is a parameter: the `Rect` for moves, and the width and height for builds;
  - `Math.sqrt` is a parameter (`dists`, `dist`), constrained by its square.
- `Math.atan2`, `Math.cos` and `Math.sin` are replaced by their exact values in terms of `dx / dist` and `dy / dist`. Floating-point rounding of every operation is not modelled: numbers are exact reals.
- Tween playback is left out, because it is a foreign library: gsap's easing curves, how the offsets move over time, and the `animating` flag.
  - A tween is modelled by what it is asked to do (target, duration, ease), and `FinishTween` jumps to its end.
  - `Advance` lets a running tween move the offsets to any point, so the model reaches the partly moved offsets that `onMove` reads; which point gsap's easing gives at which time is a parameter, not modelled.
- Canvas work is left out, as rendering: `Path2D` (and the early return when it is missing), `devicePixelRatio` scaling, `clearRect`, `save`/`translate`/`fill`/`restore`, and the `requestAnimationFrame` loop. `Draw` returns the circles one frame paints instead.
- Listener registration and removal are left out, as is the re-creation of the throttles and effects when props change; the props are fixed per `Engine`.
- The `shockRadius` prop is never read by the component, so it has no field.
- `gap` of 0 is excluded (`requires gap != 0.0`): the source divides by it. With a positive height, `height / 0` is Infinity and the outer loop never ends; with a height of 0 or less it is NaN or -Infinity and no dot is built.
- Persistence is left out because it is I/O: `localStorage` reads and writes and `JSON` encoding. The constructor takes the saved tasks and log as given.
- `saveThought` and its `fetch`, the modals, and the `StaticTimePicker`/`dayjs` formatting are left out. `newTaskTime` is held as the text `format('h:mm a')` would give.
- React batching, StrictMode double invocation and re-rendering are not modelled. Each action runs against the state it sees, and updates the log through its functional updater in order.
- DashboardState.Dashboard.ToggleTask: every entry one toggle logs carries the same `stamp`, while the source reads the clock once per `addActivity` call, so its entries may differ by a millisecond.
- `parseInt` on numbers beyond 2^53 is not modelled: the model reads them exactly.
- The other files of the repository are not part of this model: `App.jsx`, `AuthModal.jsx`, `LandingPage.jsx`, `Contact.jsx`, `Terms.jsx`, `Privacy.jsx` and `tailwind.config.js`.
