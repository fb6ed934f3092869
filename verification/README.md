# Stopwatch timer and time formatting in Dafny

This project models the `Stopwatch` class of a browser stopwatch page
(`exam-1/script.js`) without the page itself. It covers two things:

- **Time formatting.** `formatTime` splits a millisecond count into hours,
  minutes, seconds and hundredths. It then renders them as the `"HH:MM:SS"`
  clock text and a separate hundredths text. Both the numbers and the strings
  are modelled.
- **The timer and lap state machine.** This covers `start`, `stop`, `reset`,
  `lap` and the interval callback `updateTime`. The state is an immutable
  `State(startTime, elapsedTime, isRunning, lapTimes)`. The clock reading
  `Date.now()` is passed in as a parameter `now`. The 10 ms interval is
  modelled as an `IntervalTick` event, which is possible only while the
  stopwatch runs.

Files:

- `options.dfy`: the `Option` type.
- `decimal.dfy`: `toString()` of integers and `padStart`, plus a digit-string
  parser. The parser is their inverse and is used to prove that the display
  reads back.
- `time_format.dfy`: `formatTime`. JavaScript arithmetic is written out.
  `Math.floor(a / d)` with a positive `d` is Dafny's `/`. JavaScript's `%`
  keeps the sign of the dividend, so it is the separate function `JsRem`.
  The model is therefore total over all integers. Its properties are stated
  for non-negative counts, the only counts a monotone clock produces.
- `stopwatch.dfy`: the state machine. A run is a sequence of timestamped
  events. The file proves an invariant that every event preserves under a
  clock that never goes back.

The model follows the code where the code and a plain description of a
stopwatch differ:

- `stop()` does not sample the clock. The elapsed time stays at the value
  the last interval tick stored. It is not "the elapsed time at the moment of
  stopping".
- `lap()` measures against that same stored value, not against the current
  clock reading.
- The display shows the stored `elapsedTime`. It is not `now - startTime`
  recomputed on demand.
- `reset()` leaves `startTime` as it was. The next `start()` overwrites it.
- The hundredths text is padded to three characters (`"045"`). Hours are not
  truncated, so 100 hours render as `"100:00:00"`.

## Model

| member | source | states |
|---|---|---|
| `Decimal.NatToString` | exam-1/script.js:111 | the numeral of a non-negative integer is a non-empty digit string with no leading zero, one digit long exactly below 10 |
| `Decimal.IntToString` | exam-1/script.js:111-112 | a non-negative value renders as digits that read back as the value; a negative one as a minus sign followed by digits that read back as its magnitude; no numeral of a non-zero value starts with a zero digit |
| `Decimal.PadStart` | exam-1/script.js:111-112 | `padStart` makes a string of length max(target, original), ending in the original and filled in front with the fill character |
| `Decimal.ParseNatToString` | exam-1/script.js:111 | reading a rendered numeral gives back the number |
| `Decimal.ParseNatLeadingZeros` | exam-1/script.js:111-112 | leading zero padding does not change the value a digit string stands for |
| `Decimal.ParsePaddedNat` | exam-1/script.js:111-112 | a non-negative field padded with zeros to any width still reads as the field |
| `Decimal.ParseZeroPadded` | exam-1/script.js:111-112 | any digit string padded with zeros to a greater width reads as the same number |
| `Decimal.NatToStringBelow100` | exam-1/script.js:111 | numbers below 100 have at most two digits |
| `TimeFormat.Decompose` | exam-1/script.js:103-108 | for a count of at least 0: hours*3600 + minutes*60 + seconds is the whole seconds; minutes and seconds are in 0..59, hundredths in 0..99, hours at least 0; whole seconds*100 + hundredths is the count's whole hundredths |
| `TimeFormat.SplitSeconds` | exam-1/script.js:105-107 | a non-negative number of seconds splits into hours at least 0, minutes and seconds in 0..59, which recombine to it |
| `TimeFormat.SplitMilliseconds` | exam-1/script.js:104-108 | a non-negative millisecond count splits into whole seconds and hundredths in 0..99, which recombine to its whole hundredths |
| `TimeFormat.FieldsUnique` | exam-1/script.js:104-108 | in-range fields that stand for the same number of hundredths are equal |
| `TimeFormat.DecomposeCharacterized` | exam-1/script.js:104-108 | the decomposition of a count of at least 0 is exactly the in-range fields standing for its whole hundredths (both directions) |
| `TimeFormat.DecomposeEqualIff` | exam-1/script.js:104-108 | two counts of at least 0 decompose alike if and only if they agree after dropping the last millisecond digit |
| `TimeFormat.Pad2` | exam-1/script.js:111 | a non-negative field renders as digits, at least two of them, that read back as the field, exactly two below 100 |
| `TimeFormat.Pad2Exact` | exam-1/script.js:111 | `padStart(2, '0')` puts one zero before a single digit and leaves every other `toString` result, including hours of 100 or more and negative fields, exactly as it was |
| `TimeFormat.PaddedNumeral` | exam-1/script.js:111-112 | zero padding of a non-negative field is its `toString` padded, is digits that read back as the field, is at least the target width, and exactly that width below 100 for a target width of at least 2 |
| `TimeFormat.ClockText` | exam-1/script.js:111 | for in-range fields the clock text is the padded hours followed by six characters, with ':' before the minutes and the seconds |
| `TimeFormat.JoinClockShape` | exam-1/script.js:111 | joining hours, two-character minutes and two-character seconds with ':' keeps the hours as the prefix and puts the colons third and sixth from the end |
| `TimeFormat.HundredthsText` | exam-1/script.js:112 | hundredths in 0..99 render as three digits beginning with '0' that read back as the hundredths |
| `TimeFormat.HoursBelow100` | exam-1/script.js:104-105 | a count below 100 hours has an hours field below 100 |
| `TimeFormat.FormatTime` | exam-1/script.js:103-114 | for a count of at least 0 the hundredths text has three characters and starts with '0'; the clock text is at least 8 characters with ':' before the minutes and the seconds |
| `TimeFormat.FormatTimeWidth` | exam-1/script.js:103-114 | below 100 hours the clock text is exactly 8 characters |
| `TimeFormat.ParseClockJoin` | exam-1/script.js:111 | clock text joined from digit groups with ':' splits back into those groups |
| `TimeFormat.RenderedFieldsParse` | exam-1/script.js:110-113 | in-range fields rendered as `formatTime` renders them read back as themselves |
| `TimeFormat.FormatTimeParses` | exam-1/script.js:103-114 | the display of a count of at least 0 reads back as its decomposition, so nothing but the last millisecond digit is lost |
| `TimeFormat.FormatTimeEqualIff` | exam-1/script.js:103-114 | two counts of at least 0 render identically if and only if they agree after dropping the last millisecond digit |
| `TimeFormat.Pad2Digits` | exam-1/script.js:111 | a field below 100 renders as exactly its tens digit and its units digit |
| `TimeFormat.JoinTwoDigitGroups` | exam-1/script.js:111 | three two-character groups joined with ':' give the eight characters in order |
| `TimeFormat.HundredthsDigits` | exam-1/script.js:112 | hundredths below 100 render as '0', the tens digit and the units digit |
| `TimeFormat.PadOneDigit` | exam-1/script.js:112 | a one-digit hundredths value renders as two zeros and the digit |
| `TimeFormat.PadTwoDigits` | exam-1/script.js:112 | a two-digit hundredths value renders as a zero and its two digits |
| `TimeFormat.RenderedDigits` | exam-1/script.js:110-113 | in-range fields below 100 hours render character by character as the two digits of each field and a zero before the two hundredths digits |
| `TimeFormat.FormatTimeDigits` | exam-1/script.js:103-114 | below 100 hours `formatTime` gives, character by character, "HH:MM:SS" and "0" followed by the two hundredths digits of the decomposition |
| `TimeFormat.FormatZero` | exam-1/script.js:104-112 | zero milliseconds is all-zero fields and renders as "00:00:00" with "000" |
| `TimeFormat.FormatExample` | exam-1/script.js:104-112 | 3 723 450 ms is 1 h 2 min 3 s 45 hundredths, rendered "01:02:03" and "045" |
| `TimeFormat.FormatHundredHours` | exam-1/script.js:105-112 | hours are not truncated or wrapped: 100 hours render as "100:00:00" with "000" |
| `TimeFormat.HundredHoursFields` | exam-1/script.js:104-108 | 360 000 000 ms is 100 hours and nothing else |
| `TimeFormat.HundredHoursClock` | exam-1/script.js:111 | 100 hours with zero minutes and seconds render as "100:00:00" |
| `TimeFormat.ZeroHundredthsText` | exam-1/script.js:112 | any fields with zero hundredths render their hundredths as "000" |
| `TimeFormat.HoursAtLeast100` | exam-1/script.js:104-105 | a count of at least 100 hours has an hours field of at least 100 |
| `TimeFormat.FormatTimeLongHours` | exam-1/script.js:103-111 | from 100 hours on, the clock text before ':MM:SS' is exactly the numeral of the hours, with no padding and nothing cut off |
| `TimeFormat.FormatNegative` | exam-1/script.js:104-112 | the count -1 gives the fields -1, -1, -1, -1; the clock text is "-1:-1:-1" and padding puts the zero in front of the minus sign ("0-1") |
| `TimeFormat.DecomposeNegativeWholeUnits` | exam-1/script.js:104-108 | a negative count does not always give negative fields: -1000 ms has hundredths 0, and -60000 ms has seconds 0 as well |
| `Stopwatch.SumAppend` | exam-1/script.js:85 | the lap reduction of the laps plus one more is the old total plus that lap |
| `Stopwatch.ReduceSum` | exam-1/script.js:85 | the `reduce` loop computes the lap total |
| `Stopwatch.Start` | exam-1/script.js:54-61 | when stopped: running afterwards, elapsed time and laps kept, start time set so that now minus start time is the elapsed time; when running: the state is unchanged |
| `Stopwatch.Stop` | exam-1/script.js:63-69 | not running afterwards, and nothing but the running flag differs from before |
| `Stopwatch.Reset` | exam-1/script.js:71-78 | from any state: stopped, elapsed time 0, no laps, and the start time kept |
| `Stopwatch.LapTimeSinceLastLap` | exam-1/script.js:83-85 | both branches of the lap formula give the elapsed time less the laps so far |
| `Stopwatch.Lap` | exam-1/script.js:80-90 | when stopped: nothing changes; when running: one lap is appended, earlier laps are unchanged, the new lap is the time since the previous lap boundary, the laps then add up to the elapsed time, and nothing else changes |
| `Stopwatch.UpdateTime` | exam-1/script.js:92-95 | after a tick the start time plus the elapsed time is the clock reading, and nothing but the elapsed time changes |
| `Stopwatch.StartResumes` | exam-1/script.js:54-95 | after a start from stopped, a tick at the same instant reproduces the earlier elapsed time, and a tick d ms later reads that time plus d: a pause is resumed, not reset |
| `Stopwatch.StartIdempotent` | exam-1/script.js:54-61 | a second start at any time keeps the first start time |
| `Stopwatch.StopResetIdempotent` | exam-1/script.js:63-78 | stopping twice equals stopping once, and resetting twice equals resetting once |
| `Stopwatch.StartThenReset` | exam-1/script.js:71-78 | start followed by reset is stopped, zeroed and lap-free and shows "00:00:00" and "000"; so does a reset stopwatch from any state |
| `Stopwatch.Step` | exam-1/script.js:54-95 | an event is impossible exactly when it is an interval tick and the stopwatch is not running |
| `Stopwatch.InitialInv` | exam-1/script.js:3-8 | the constructed state satisfies the invariant |
| `Stopwatch.StepPreservesInv` | exam-1/script.js:54-95 | an event no earlier than the clock keeps elapsed time >= 0, lap total <= elapsed time and every lap >= 0; except for reset, elapsed time does not decrease and earlier laps are kept |
| `Stopwatch.RunPreservesInv` | exam-1/script.js:54-95 | the invariant holds after any possible run under a monotone clock |
| `Stopwatch.RunWithoutResetGrows` | exam-1/script.js:54-95 | a run under a monotone clock with no reset never lowers the elapsed time and only appends laps |
| `Stopwatch.ReachableStates` | exam-1/script.js:3-95 | every state a fresh stopwatch reaches under a monotone clock has elapsed time >= 0, no negative lap, and laps adding up to at most the elapsed time |
| `Stopwatch.ShownReadsBack` | exam-1/script.js:97-101 | the display of a reachable state has in-range fields that read back from its text |
| `Stopwatch.LapExampleFirstLap` | exam-1/script.js:54-95 | start at 0, a tick at 1000 and a lap leave a running stopwatch with elapsed time 1000 and laps [1000] |
| `Stopwatch.LapExampleSecondLap` | exam-1/script.js:63-95 | from there, a tick at 2500, a lap at 2504 and a stop give elapsed time 2500 and laps [1000, 1500] |
| `Stopwatch.RunFirst` | exam-1/script.js:54-95 | a run whose first event is possible continues from the state that event leads to |
| `Stopwatch.LapExample` | exam-1/script.js:80-95 | laps taken when the ticks have stored 1000 ms and then 2500 ms are [1000, 1500]; a lap between ticks uses the stored value, and stop keeps it |

## Left out

- Page elements and rendering are left out: `getElementById`, `updateDisplay`'s
  writes, `updateLapList` (including its 1-based "Lap N" labels) and
  `updateButtonStates`. They only present the state. `Stopwatch.Shown` stands
  for the value `updateDisplay` writes.
- Event wiring and keyboard shortcuts (lines 24-52) are left out, as are the
  page-load setup, the button effects and the instructions tooltip
  (lines 173-210). They are interface glue that calls the modelled operations.
- The theme toggle and theme loading (lines 154-169) are left out. They only
  touch `localStorage` and CSS classes.
- Timer scheduling with `setInterval`, `clearInterval` and `setTimeout` is
  not modelled. Arming and clearing the interval appears only as the rule that
  a tick can happen only while running. `Date.now()` is the `now` parameter of
  `Start` and of a tick event.
- JavaScript numbers are doubles. The model uses unbounded integers, which
  agree with them for integer millisecond counts up to 2^53.
- `Stopwatch.Initial`, `Stopwatch.Sum` and `Stopwatch.LapTime` carry no
  contract of their own. `Initial` is the state the constructor sets up
  (lines 4-8); its meaning shows in `Stopwatch.InitialInv` and
  `Stopwatch.ReachableStates`. `Sum` is the `reduce` at line 85; its meaning
  shows in `Stopwatch.SumAppend` and `Stopwatch.ReduceSum`. `LapTime` is the
  lap formula at lines 83-85; its meaning shows in
  `Stopwatch.LapTimeSinceLastLap` and `Stopwatch.Lap`.
- `TimeFormat.FloorDiv` and `TimeFormat.JsRem` carry no contract of their
  own. They stand for `Math.floor` of a quotient and for JavaScript's `%`. Their
  meaning shows in the contract of `TimeFormat.Decompose`.
