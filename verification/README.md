# Pico clock: date/time editor, modelled in Dafny

This project models the interactive core of a MicroPython clock for a Pico
with a colour display, an RGB LED, a battery-backed real-time clock (RTC) and
buttons A, B, X and Y (`code.py`). The modelled parts are these:

- **Calendar arithmetic** (`Calendar`, `calendar.dfy`). This covers
  `days_in_month` with the Gregorian leap-year rule. It also models the
  function exactly as written, which faults on every February (see
  Findings).
- **The button handler** (`ClockEditor`, `clock_editor.dfy`). The interrupt
  handler `button` is one pure, atomic step:
  `Step(clock, pin, stillPressed)`. The `Clock` record holds the handler's
  globals: the edit-mode flag `setClock`, the `cursor` into
  `["hour", "minute", "year", "month", "day", "finish"]`, and the fields
  year, month, day, hour, minute and second. `stillPressed` is what the
  pin reads after the debounce delay. The step returns three things: the
  new clock, whether the handler asked for a redraw, and the RTC write
  tuple, if any.
- **Sessions** (`ClockSession`, `clock_session.dfy`). These are sequences
  of handler invocations (`Run`) and the properties of whole editing
  sessions.
- **Start-up and refresh** (`ClockBoot`, `clock_boot.dfy`). At start-up the
  globals are loaded from the RTC, and a never-set RTC (2021-01-01) is
  rewritten to 2022-02-28 12:00:00. The main loop reloads the globals from
  the RTC while the clock is not being edited.

`Wrappers` (`wrappers.dfy`) holds `Option` and `Result`.

Points where the code is easy to misread:

- A commit writes `(year, month, day, 0, hour, minute, second, 0)`. This
  uses the second currently held, not 0.
- Button X has no handler registered, so it is not an input of the model.
- At start-up the globals are loaded before the sentinel check. After the
  fixup they still hold 2021-01-01 until the main loop's first refresh.
- The leap-year test in the code names an undefined variable. The model
  uses the evidently intended Gregorian rule in `Calendar.DaysInMonth`. The
  code as written is kept separately as `Calendar.DaysInMonthAsWritten`.

## Model

| member | source | states |
|---|---|---|
| Calendar.DaysInMonth | code.py:76-79 | For months 1..12 the result is in 28..31. It is 29 exactly when the month is February and the year is a Gregorian leap year; for other months it is the common-year table entry |
| Calendar.DaysInMonthByRule | code.py:79 | Independent statement of the table: 30 for April, June, September and November; 28 or 29 for February; 31 otherwise |
| Calendar.YearLength | code.py:79 | The twelve months add up to 366 days in a leap year and 365 otherwise |
| Calendar.DaysInMonthAsWritten | code.py:76-79 | The code as written: NameError for every February; IndexError (and no other error) for months outside -11..12; months -11..0 index from the end of the table; months 1..12 other than February agree with the intended rule |
| Calendar.AsWrittenFailsOnLeapFebruary | code.py:77 | For February 2024, the code as written raises NameError where the intended answer is 29 |
| ClockEditor.NextCursor | code.py:100-101 | B moves the cursor to the next field and wraps from "finish" (index 5) back to "hour" (index 0), staying in 0..5 |
| ClockEditor.PinDelta | code.py:104-110 | A carries +1, Y carries -1, B carries no adjustment |
| ClockEditor.EditYear | code.py:118-121 | The year has a floor of 2022 and no ceiling. The day is kept if it fits the month in the new year, else pulled back to the month's last day. Nothing else changes |
| ClockEditor.EditMonth | code.py:123-126 | The month clamps to 1..12 and does not wrap. The day is kept if it fits the new month, else pulled back to its last day. Nothing else changes |
| ClockEditor.EditDay | code.py:128-130 | The day clamps to 1..days-in-month and does not wrap. Nothing else changes |
| ClockEditor.EditHour | code.py:132-134 | The hour is in 0..23 and congruent to hour+delta mod 24. 0 minus 1 gives 23 and 23 plus 1 gives 0. Nothing else changes |
| ClockEditor.EditMinute | code.py:136-138 | The minute is in 0..59 and congruent to minute+delta mod 60. 0 minus 1 gives 59 and 59 plus 1 gives 0. Nothing else changes |
| ClockEditor.EditFinish | code.py:112-117 | A non-zero adjustment leaves edit mode and yields the write (year, month, day, 0, hour, minute, second, 0). No adjustment changes nothing and writes nothing |
| ClockEditor.Step | code.py:82-141 | A bounce changes nothing, redraws nothing and writes nothing. Outside edit mode only B acts: it enters edit mode on "hour" and redraws; A and Y do nothing. In edit mode every press redraws, and B advances the cursor with wrap-around without leaving edit mode or writing. A write happens exactly when A or Y arrives on "finish" in edit mode, which is exactly when edit mode is left. The write carries the current fields and second, and the cursor stays on "finish". The cursor stays in 0..5 |
| ClockEditor.StepChangesOnlyFieldUnderCursor | code.py:112-138 | Only the field under the cursor after the step changes. Year and month edits may also change the day. The second never changes, and the cursor moves only on B |
| ClockEditor.StepEditsFieldUnderCursor | code.py:98-138 | In edit mode, A and Y change the clock exactly as the edit rule of the field under the cursor does with +1 or -1, and on "finish" as the commit does. B moves the cursor and then changes the clock exactly as the new field's rule does with no adjustment |
| ClockEditor.StepKeepsEditedFieldInRange | code.py:118-138 | After an edit step: hour in 0..23 and minute in 0..59 on their fields, year at least 2022 on "year", month in 1..12 on "month". On year, month and day, a day that was at least 1 ends in 1..days-in-month |
| ClockEditor.StepPreservesCalendarValid | code.py:118-138 | A valid date and time of day stays valid across any step |
| ClockSession.Run | code.py:82-141 | Running the handler over a sequence of presses keeps the cursor and month in range. There are at most as many redraws and writes as presses |
| ClockSession.RunKeepsCalendarValid | code.py:117-138 | A session from a valid date and time ends on one. Every RTC write it makes is a valid date and time with weekday and subsecond 0, and carries the second held at the start |
| ClockSession.BouncesAreInert | code.py:88-90 | Presses that all bounce leave the clock unchanged, with no redraw and no write |
| ClockSession.IdleIgnoresAandY | code.py:92-98 | Outside edit mode, any number of A and Y presses change nothing, redraw nothing and write nothing |
| ClockSession.CursorAfterIsModular | code.py:100-101 | n cursor moves advance the cursor by n modulo 6 |
| ClockSession.AdvanceOnlyMovesCursor | code.py:99-102 | In edit mode on a valid date with a year of at least 2022, B only moves the cursor. Re-applying a field with no adjustment changes nothing |
| ClockSession.AdvancesOnlyMoveCursor | code.py:99-102 | n B presses in edit mode move the cursor n places, redraw n times and never write the RTC, including when they pass "finish" |
| ClockSession.CursorLapsAreIdentity | code.py:99-102 | A whole number of laps of B presses returns the clock exactly to where it was, without writing |
| ClockSession.YearFloorHolds | code.py:118-121 | Any number of year decrements at 2022 keep the year at 2022 and change nothing else |
| ClockSession.HourEditsCancel | code.py:132-134 | On "hour", A then Y, and Y then A, restore the clock |
| ClockSession.MinuteEditsCancel | code.py:136-138 | On "minute", A then Y, and Y then A, restore the clock |
| ClockSession.DayEditsCancel | code.py:128-130 | On "day", A and Y undo each other away from the ends of the month. At the ends the clamp makes the edit a no-op |
| ClockSession.MonthEditsCancel | code.py:123-126 | On "month", A and Y undo each other unless the month is at an end of the year or the day had to be pulled back |
| ClockSession.YearEditsCancel | code.py:118-121 | On "year", A and Y undo each other above the floor unless the day had to be pulled back |
| ClockSession.LeapDayYearIncrement | code.py:118-121 | Incrementing the year from 29 February 2024 gives 28 February 2025 |
| ClockSession.EditSessionCommitsOnce | code.py:82-141 | The session runs from idle: enter, hour 4 to 5, minute 31 to 30, step to "finish", press A. It makes exactly one RTC write, with the held date and second. Edit mode is left and the cursor stays on "finish" |
| ClockSession.RunAppend | code.py:82-141 | Running two press sequences in turn is running their concatenation: redraws add up and writes concatenate |
| ClockBoot.BootFixup | code.py:205-206 | A reading of 2021-01-01 yields the write (2022, 2, 28, 0, 12, 0, 0, 0). Any other reading yields no write |
| ClockBoot.Boot | code.py:203-206 | The clock starts outside edit mode with the cursor on "hour". It holds the reading's fields, not the fixed-up ones, and makes the fixup's write |
| ClockBoot.Refresh | code.py:222-223 | Outside edit mode the fields are reloaded from the RTC reading. In edit mode the clock is unchanged |
| ClockBoot.FixupIsStable | code.py:205-206 | The default setting is a valid date and time and is not the sentinel, so a restart after the fixup writes nothing |
| ClockBoot.FixupShowsAtFirstRefresh | code.py:203-206 | For a never-set RTC, the first refresh after start-up shows 2022-02-28 12:00:00 |
| ClockBoot.CommitReadsBack | code.py:112-117 | A commit on "finish" writes the RTC. If the RTC then reports exactly that tuple, the refresh leaves the committed clock unchanged |

## Left out

- ClockEditor.Step: requires the month to be in 1..12. The RTC only reports months 1..12, and every edit keeps the month there. With another month the code indexes the month table with Python's negative indexing or raises IndexError on the year and day branches.
- ClockEditor.Step: the version modelled uses the intended leap-year rule throughout; only `days_in_month` itself is modelled as written (`Calendar.DaysInMonthAsWritten`). With the code as written, the handler raises NameError in three cases. On "year" and "day", any press raises while the month is February. On "month", a press raises when the month after the clamp is February: January with A raises, February with A does not. The handler has already changed state when it raises: the year (code.py:119-120), the month (code.py:124-125) or the day (code.py:129), and, for B, the cursor (code.py:100-101). No redraw follows, and the main loop redraws only outside edit mode (code.py:222-224). So in February, B moves the cursor through year, month and day while the screen still underlines minute. For example, 31 January with A on "month" leaves month 2 and day 31, and a later commit writes that date to the RTC. The model does not reproduce these partial updates.
- Colour maths (`hsv_to_rgb`, `contrast_colour`) is not modelled: it is floating-point arithmetic for the background and LED colour.
- `draw_clock` is not modelled: it renders text and lines through the display library, which is not part of this model. A redraw is represented only by the step's `redraw` flag.
- The main loop's hue counter, LED output and sleeps are not modelled. Only its refresh of the globals from the RTC is (`ClockBoot.Refresh`).
- Hardware set-up is not modelled: pins, interrupt registration, backlight, pens, the unused temperature sensor and the unused colour pens.
- The debounce delay is not modelled. Only the re-check of the pin after it is, as the `stillPressed` input.
- Interrupts preempting the main loop are not modelled. Each handler invocation is one atomic step.
- The RTC device is not modelled. Its reads are parameters (`Boot`, `Refresh`) and its writes are values returned by a step. The RTC does not tick in the model.

## Findings

| source | as written | input that shows it | evidently intended | confidence | as-written member | corrected member |
|---|---|---|---|---|---|---|
| code.py:77 | The leap-year test reads `ear % 4`, an undefined name. It is evaluated only when `month == 2`, so every February call raises NameError. | `days_in_month(2, 2024)` | `(year % 4 == 0 and year % 100 != 0) or year % 400 == 0`, giving 29 for February 2024 | high (not executed) | Calendar.AsWrittenFailsOnLeapFebruary | Calendar.DaysInMonth |
