# Stopwatch: the state machine and the duration formatter

A model of the logic inside the PyQt6 `Stopwatch` widget (`stopwatch.py`),
with proofs of its properties. The model has two parts.

- `duration.dfy`, module `DurationFormat`, models `formatTime`. It turns a
  non-negative millisecond count into `HH:MM:SS.mmm` with three nested
  `divmod`s and zero-padded decimal fields. The module proves four things
  about it. The parts stay within their units and add back to the count. The
  text has a fixed shape. The text is 12 characters long exactly when the
  count is below 100 hours. Reading the text back recovers the count, so
  `formatTime` is injective.
- `stopwatch.dfy`, module `StopwatchEngine`, models the widget's state as a
  class `Stopwatch`. Its fields are `time`, `running` and `splitTime`. The
  widget's `QTimer` becomes a flag `timerActive`. The two labels the code
  writes become strings. A ghost field `splits` records the delta of every
  split. The invariant `Valid()` says four things:
  - `splitTime <= time`;
  - the split deltas are non-negative and sum to `splitTime`;
  - the timer is active exactly while the watch runs;
  - the time label shows `formatTime(time)`.

  `StartStop`, `UpdateTime` and `Split` keep this invariant. `UpdateTime`
  is one timer timeout, so it can be called only while the timer is
  active. Because `Valid()` ties the timer to `running`, ticks happen only
  while running.

`SplitScenario` is a client of the class. It starts the watch, delivers
`first` ticks, splits, delivers `second` more, splits again and stops. It
proves that the deltas are `first` and `second`, that the split label shows
the totals `first` and `first + second`, and that the elapsed time after
stopping is `first + second`. `SplitScenarioExample` runs it with 100 and 50.

## Model

| member | source | states |
|---|---|---|
| `DurationFormat.Decompose` | stopwatch.py:105-107 | the nested divmod gives minutes < 60, seconds < 60, milliseconds < 1000, and hours*3600000 + minutes*60000 + seconds*1000 + milliseconds equals the input |
| `DurationFormat.DivModUnique` | stopwatch.py:105-107 | a quotient and remainder with 0 <= r < d and x == q*d + r are the ones divmod returns |
| `DurationFormat.DecomposeTotal` | stopwatch.py:105-107 | every normal (hours, minutes, seconds, ms) split of a count is the one the nested divmod produces, so the split is unique |
| `DurationFormat.Digits` | stopwatch.py:108 | the decimal text of n, as `str(n)` prints it inside the f-string: at least one digit, all digits, a leading '0' only for n == 0, and "0" for 0 |
| `DurationFormat.ZeroPad` | stopwatch.py:108 | a `{n:0wd}` field is as long as the wider of w and the digits of n |
| `DurationFormat.DigitsLength` | stopwatch.py:108 | the decimal text of n has at most k digits exactly when n < 10^k |
| `DurationFormat.ZeroPadFacts` | stopwatch.py:108 | a `{n:0wd}` field is all digits, denotes n, is at least w wide, and is exactly w wide iff n < 10^w |
| `DurationFormat.FormatTime` | stopwatch.py:104-108 | formatTime's text is at least 12 characters long (2 + 2 + 2 + 3 digits and three separators) |
| `DurationFormat.FormatTimeShape` | stopwatch.py:104-108 | the text is zero-padded hours (at least 2 digits), ':', 2 minute digits, ':', 2 second digits, '.', 3 millisecond digits; every other character is a digit |
| `DurationFormat.FormatTimeLength` | stopwatch.py:104-108 | the text is at least 12 characters, and exactly 12 iff ms < 360000000 |
| `DurationFormat.FormatTimeZero` | stopwatch.py:104-108 | formatTime(0) is "00:00:00.000", the initial time label text of line 39 |
| `DurationFormat.ParseFormatTime` | stopwatch.py:104-108 | reading the text back as h*3600000 + m*60000 + s*1000 + ms yields the input |
| `DurationFormat.FormatTimeInjective` | stopwatch.py:104-108 | two counts with the same text are equal |
| `DurationFormat.SplitLabel` | stopwatch.py:100-102 | the split label text starts with "Last Split: ", ends with ")" and is at least 45 characters long |
| `DurationFormat.LabelTextParts` | stopwatch.py:102 | in `Last Split: A (Total: B)` where A has no space, the text determines A and B |
| `DurationFormat.SplitLabelInjective` | stopwatch.py:100-102 | two split labels that read the same show the same delta and the same total |
| `StopwatchEngine.SumAppend` | stopwatch.py:97-99 | adding one split delta to the log adds it to the sum of the deltas |
| `StopwatchEngine.RunningTotalsAt` | stopwatch.py:97-102 | the total shown at split i is the sum of the deltas of splits 0 to i |
| `StopwatchEngine.RunningTotalsAppend` | stopwatch.py:97-102 | one more split adds exactly one shown total, the sum of all deltas so far; with `Split`'s ensures this total is the time at that split |
| `StopwatchEngine.TwoSplitTotals` | stopwatch.py:97-102 | splits with deltas a and then b show the totals a and a + b |
| `StopwatchEngine.Stopwatch.constructor` | stopwatch.py:69-71 | initially time == 0, not running, split_time == 0, timer stopped, labels "00:00:00.000" and "Last Split: 00:00:00.000"; the invariant holds |
| `StopwatchEngine.Stopwatch.StartStop` | stopwatch.py:77-87 | running flips, the timer follows it, and time, split_time and the split log are unchanged, so stopping does not reset elapsed time |
| `StopwatchEngine.Stopwatch.UpdateTime` | stopwatch.py:89-91 | callable only while the timer runs; time rises by exactly 1 and the time label shows the new time; nothing else changes |
| `StopwatchEngine.Stopwatch.UpdateDisplay` | stopwatch.py:93-95 | the time label becomes formatTime(time) |
| `StopwatchEngine.Stopwatch.Split` | stopwatch.py:97-102 | returns delta = time - split_time >= 0, sets split_time := time with time unchanged, appends the delta to the log, the deltas now sum to time, and the split label reads "Last Split: <delta> (Total: <time>)" |
| `StopwatchEngine.DeliverTicks` | stopwatch.py:67-68 | n timer timeouts to a running watch add exactly n to time, keep the invariant, and leave the split marker, the split log and the split label unchanged |
| `StopwatchEngine.SplitScenario` | stopwatch.py:77-102 | start, `first` ticks, split, `second` ticks, split, stop: the deltas are `first` and `second` and the elapsed time after stopping is `first + second` |

## Left out

- Widget construction, the style sheet, layouts, fonts and the description text box (stopwatch.py:11-64) are GUI plumbing.
- The button texts and the enabling of the split button (stopwatch.py:81-82, 86-87) are not modelled. The GUI enables split only while running. The model lets `Split` be called in any state, and every property above holds either way.
- Real-time delivery of the `QTimer` timeouts and the 1 ms interval are not modelled. The timer is a flag. Each timeout is one `UpdateTime` call, and `DeliverTicks` stands for a run of them.
- The application entry point and event loop (stopwatch.py:110-114) are left out.
- `DurationFormat.Decompose` and `DurationFormat.FormatTime` take a natural number. Python's `divmod` and `:02d` also accept a negative count, but the code never passes one: `time` only grows from 0, and a split delta is non-negative by the invariant.
- Task tracking, saved sessions and CSV persistence are described for the wider application. None of their code is in `stopwatch.py`, so they are not part of this model.
