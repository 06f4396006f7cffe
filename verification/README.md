# Countdown-timer widget: duration editing, clock text and reset

The widget is one React component (`src/App.jsx`). It shows a black dial with
a red wedge for the configured duration, a text box holding the duration in
minutes, and an `MM:SS` clock text under the dial. A mouse-wheel event over the
text box or the dial steps the duration between five-minute marks. Typing in the
box sets the duration from the digits typed, capped at one hour. A click on
either control runs the reset handler.

This project models that logic as pure Dafny functions over naturals and
strings, plus one immutable record for the view state:

- `Decimal` (decimal.dfy): the string primitives the component relies on.
  These are `String(n)` for a non-negative integer written in plain decimal
  (`FromNat`), `Number(s)` for
  a digit string (`Value`) and `padStart` (`PadStart`).
- `Wheel` (wheel.dfy): the wheel step rule (`Next`) and its properties. The
  result stays in range, lands on a five-minute mark and is the nearest mark in
  the scroll direction. Scrolling is monotone and saturates at both ends of the
  dial. Twelve events in one direction reach the end.
- `TextInput` (text_input.dfy): the text-box sanitiser. It keeps the digits,
  reads them as a number and caps the result at 60.
- `TimeFormat` (time_format.dfy): `formatTime` (`FormatTime`) and a reader for
  its output (`ParseTime`). The two are inverse to each other.
- `Gauge` (gauge.dfy): whether the red wedge is drawn for a duration.
- `View` (view.dfy): the state record, the three events (wheel, edit, click),
  runs of events from the initial state, and the invariant every reachable
  state keeps.

The component declares `isRunning`, `isPaused`, `timeLeft` and
`pausedElapsed`, but nothing sets the two flags to true. The START and PAUSE
buttons are commented out (src/App.jsx:114-120) and `handleStart` and
`handlePause` are not defined, so the edit guard never engages
(`View.WheelAlwaysTakesEffect`). The duration is kept in whole minutes, and the
reset handler sets the time left to 0.

The record carries one field the component keeps only on the canvas: `drawn`,
the progress most recently passed to the redraw. This field makes one behaviour
of the code visible. After a click, the dial is blanked while the duration and
its clock text stay. The redraw that follows a duration change does not run
again until the duration changes (`View.ResetBlanksDialButKeepsDisplay`).

## Model

| member | source | states |
|---|---|---|
| `Wheel.Next` | src/App.jsx:45-57 | the stepped duration is a multiple of five; it stays within 0..60 when the previous value did, and up never exceeds 60; up never decreases a value on the dial and down never increases it |
| `Wheel.NextFixedOnlyAtEnds` | src/App.jsx:47-55 | a wheel event leaves the duration unchanged exactly when scrolling up at 60 or down at 0 |
| `Wheel.UpIsNearestMarkAbove` | src/App.jsx:47-55 | below 60, scrolling up gives the nearest multiple of five strictly above (off-grid values snap, on-grid values move a whole step); at or above 60 it gives 60 |
| `Wheel.DownIsNearestMarkBelow` | src/App.jsx:47-55 | above 0, scrolling down gives the nearest multiple of five strictly below; at 0 it stays 0 |
| `Wheel.NextMonotone` | src/App.jsx:47-55 | a larger starting duration never gives a smaller result, in either direction |
| `Wheel.UpDownRoundTrip` | src/App.jsx:54 | on a five-minute mark inside the dial, one step up then down (or down then up) returns to the mark |
| `Wheel.ScrollUpProgress` | src/App.jsx:45-57 | after k wheel events up the duration is at least min(60, 5k), from any starting value |
| `Wheel.ScrollDownProgress` | src/App.jsx:45-57 | after k wheel events down from a value on the dial the duration is at most max(0, 60 - 5k) |
| `Wheel.TwelveEventsSaturate` | src/App.jsx:45-57 | twelve or more events up reach 60 from any value; twelve or more events down reach 0 from any value on the dial |
| `Decimal.Value` | src/App.jsx:93 | `Number` of a digit string: the empty string reads as 0, and a string whose first digit is not zero reads as a positive number |
| `Decimal.ValueBound` | src/App.jsx:93 | `Number` of a string of k digits is below 10^k |
| `Decimal.FromNat` | src/App.jsx:71-72 | `String(n)` is a non-empty digit string without a leading zero, one character long exactly when n < 10 |
| `Decimal.PadStart` | src/App.jsx:71-72 | `padStart` keeps the string and puts fill characters in front of it up to the width, never shortening it |
| `Decimal.ValueOfFromNat` | src/App.jsx:71-72 | reading `String(n)` back as a number gives n |
| `Decimal.FromNatOfValue` | src/App.jsx:71-72 | every digit string without a leading zero is `String` of its own value |
| `Decimal.ValueInjective` | src/App.jsx:71-72 | two digit strings of the same length with the same value are equal |
| `Decimal.PadValue` | src/App.jsx:71-72 | padding with zeros on the left does not change the number read back |
| `Decimal.FromNatWidth` | src/App.jsx:71-72 | `String(n)` has at most two characters exactly when n < 100 |
| `TextInput.KeepDigits` | src/App.jsx:91 | the filtered text consists of digits only, is no longer than the input, and contains the same set of digit characters as the input; order and multiplicity follow from `TextInput.KeepDigitsAppend` and `TextInput.KeepDigitsFixesExactlyDigits` |
| `TextInput.Sanitise` | src/App.jsx:91-94 | the edited duration is at most 60; no digits gives 0; below 60 it is the number the digits spell, and it is 60 exactly when that number is 60 or more |
| `TextInput.KeepDigitsAppend` | src/App.jsx:91 | the digit filter distributes over concatenation |
| `TextInput.KeepDigitsFixesExactlyDigits` | src/App.jsx:91 | the filter leaves a string unchanged exactly when it is all digits |
| `TextInput.NonDigitIgnored` | src/App.jsx:91-94 | inserting a non-digit character anywhere in the text does not change the duration read |
| `TextInput.ShownValueReadsBack` | src/App.jsx:89-94 | the box's own text `String(duration)` reads back as the duration for 0..60 and as 60 beyond |
| `TimeFormat.Field` | src/App.jsx:71-72 | a padded field is a digit string of at least two characters whose value is the number; exactly two below 100, and no leading zero when longer |
| `TimeFormat.FormatTime` | src/App.jsx:70-74 | the clock text is a minutes field, a colon and a two-digit seconds field; the fields read back as seconds / 60 and seconds % 60; it is five characters exactly when seconds < 6000 |
| `TimeFormat.ParseFormat` | src/App.jsx:70-74 | reading a clock text back gives the seconds it was made from |
| `TimeFormat.FormatParse` | src/App.jsx:70-74 | any text the reader accepts is exactly the clock text of the seconds it returns |
| `TimeFormat.ParseTimeInvertsFormat` | src/App.jsx:70-74 | the reader returns n for a text exactly when that text is the clock text of n |
| `TimeFormat.FormatTimeInjective` | src/App.jsx:70-74 | distinct second counts give distinct clock texts |
| `Gauge.Progress` | src/App.jsx:77 | the progress `duration / 60` is never negative; it is 0 exactly for no duration, below 1 exactly below an hour, and 1 exactly at an hour |
| `Gauge.WedgeShown` | src/App.jsx:32 | for the progress duration / 60 (line 77), the wedge is drawn exactly when 0 < duration < 60; a full hour draws none |
| `View.OnWheel` | src/App.jsx:43-59 | a wheel event is ignored while running or paused; otherwise the duration becomes the step rule's result for the old duration, scrolling up exactly when `deltaY` is negative (line 48, so zero scrolls down); it lands on a mark, stays on the dial, moves in the scroll direction, and the dial is redrawn for it; no other field changes |
| `View.OnInput` | src/App.jsx:90-96 | an edit is ignored while running or paused; otherwise the duration becomes the sanitised value, and the dial is redrawn exactly when the duration changed; no other field changes |
| `View.Display` | src/App.jsx:110-112 | the clock text for a duration is at least five characters, exactly five below 100 minutes, and reads back as the duration in seconds |
| `View.Reset` | src/App.jsx:61-68 | a click clears both flags, the paused time and the time left, blanks the wedge, and keeps the duration |
| `View.ResetBlanksDialButKeepsDisplay` | src/App.jsx:61-68 | after a click the clock text is unchanged, a second click changes nothing more, and a duration that draws a wedge is no longer shown on the dial |
| `View.StepKeepsConsistent` | src/App.jsx:43-99 | every event keeps the duration on the dial, the flags and counters clear, and the dial either agreeing with the duration or blank |
| `View.RunKeepsConsistent` | src/App.jsx:5-12 | every sequence of events from a consistent state ends in a consistent state |
| `View.WheelAlwaysTakesEffect` | src/App.jsx:44 | in every state reachable from mount, the lock is off, so a wheel event always applies the step rule |
| `View.ReachableDisplay` | src/App.jsx:110-112 | in every reachable state the duration is at most 60 minutes and its clock text is exactly five characters (`MM:SS`); `View.Display` makes that text read back as the duration in seconds |
| `View.ReachableWedge` | src/App.jsx:76-78 | in every reachable state any wedge on the dial is the one the duration asks for (the drawn progress equals duration / 60), so the duration is strictly between 0 and 60 |

## Left out

- Canvas drawing: `getContext`, `clearRect`, `arc`, `fill` and the sweep angles are platform calls and floating-point geometry. Only the condition for drawing the wedge is kept (`Gauge.WedgeDrawn`), and the last progress drawn is kept as a record field.
- `requestAnimationFrame`/`cancelAnimationFrame`, `useState`/`useRef`/`useEffect` plumbing and the CSS are framework glue. Their effect on state is modelled as pure transitions: a state update becomes a new record, and the redraw after a duration change becomes an update of `drawn`.
- The start/pause/resume/tick elapsed-time logic, the stopwatch mode, the alarm, fullscreen and touch gestures do not exist in the code. The buttons are commented out and the unused `startTimestamp` ref has no reader, so there is nothing to model.
- `View.OnWheel`: `deltaY` is a JavaScript number; it is modelled as a Dafny `real` (read by `Wheel.DirectionOf`), so `NaN` (which the code would treat as scrolling down) is not represented.
- `Decimal.FromNat`: JavaScript's `String` writes numbers of 10^21 and above in exponent notation (`1e+21`) and does not represent integers above 2^53 exactly; `FromNat` writes every natural in plain decimal. The widget only stringifies values up to 3600, where the two agree.
- `Decimal.Value`: `Number` on very long digit strings loses precision or gives `Infinity`. After the cap at 60 the result is 60 either way, so the value is read over unbounded naturals.
- `TimeFormat.FormatTime`: the `Math.floor` around `seconds % 60` is omitted, because the argument is always a whole number (`duration * 60`).
- React may call the state-updater function passed to `setDuration` more than once. It is pure apart from the redraw, which draws the same value each time, so one call is modelled.
