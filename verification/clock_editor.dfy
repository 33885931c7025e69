/**
 * The date/time editing state machine of the Pico clock: the `button`
 * interrupt handler of code.py as one atomic, pure step.
 *
 * The handler's globals become an immutable `Clock` record. One handler
 * invocation is `Step(clock, pin, stillPressed)`, where `stillPressed` is
 * what the pin reads after the debounce delay (the pin is active-low, so
 * "still pressed" means it reads 0). The step returns the new clock,
 * whether the handler asked for a redraw (`draw_clock()`), and the tuple it
 * wrote to the RTC, if any.
 */
module ClockEditor {
  import opened Wrappers
  import opened Calendar

  /** The fields the cursor can select; `Finish` is the "done" button. */
  datatype Field = Hour | Minute | Year | Month | Day | Finish

  /** The cursor order of the editor: the cursor is an index into this. */
  const Cursors: seq<Field> := [Hour, Minute, Year, Month, Day, Finish]

  /** The buttons with a handler registered: A increments, Y decrements,
      B enters edit mode or moves the cursor. Button X has no handler. */
  datatype Pin = A | B | Y

  /** The adjustment an edit applies to the field under the cursor. */
  type Delta = d: int | -1 <= d <= 1

  /** The RTC's datetime tuple:
      (year, month, day, weekday, hour, minute, second, subsecond). */
  datatype RtcTuple = RtcTuple(year: int, month: int, day: int, weekday: int,
                               hour: int, minute: int, second: int, subsecond: int)

  /** The handler's globals: the edit-mode flag, the cursor and the
      date/time fields being shown or edited. */
  datatype Clock = Clock(setClock: bool, cursor: int,
                         year: int, month: int, day: int,
                         hour: int, minute: int, second: int)

  /** What one handler invocation produces. */
  datatype StepResult = StepResult(clock: Clock, redraw: bool, write: Option<RtcTuple>)

  /** The cursor indexes `Cursors` and the month can index the month table;
      the RTC only ever reports months 1..12. */
  predicate WellFormed(c: Clock) {
    0 <= c.cursor < |Cursors| && 1 <= c.month <= 12
  }

  /** The fields describe a real date and time of day. */
  predicate CalendarValid(c: Clock) {
    && 1 <= c.month <= 12
    && 1 <= c.day <= DaysInMonth(c.month, c.year)
    && 0 <= c.hour < 24
    && 0 <= c.minute < 60
  }

  /** The cursor after B in edit mode: the next field, wrapping past
      "finish" back to "hour". */
  function NextCursor(i: int): (j: int)
    requires 0 <= i < |Cursors|
    ensures 0 <= j < |Cursors|
    ensures j == if i == |Cursors| - 1 then 0 else i + 1
  {
    (i + 1) % |Cursors|
  }

  /** The adjustment a button carries: +1 for A, -1 for Y, none for B. */
  function PinDelta(pin: Pin): (d: Delta)
    ensures d == 0 <==> pin == B
    ensures d == 1 <==> pin == A
  {
    match pin
    case A => 1
    case B => 0
    case Y => -1
  }

  /** Year edit: the year has a floor of 2022 and no ceiling, and the day is
      pulled back to the last day of the month when it no longer fits. */
  function EditYear(c: Clock, delta: Delta): (r: Clock)
    requires 1 <= c.month <= 12
    ensures r.year >= 2022
    ensures c.year + delta >= 2022 ==> r.year == c.year + delta
    ensures c.year + delta < 2022 ==> r.year == 2022
    ensures r.day <= DaysInMonth(c.month, r.year)
    ensures c.day <= DaysInMonth(c.month, r.year) ==> r.day == c.day
    ensures c.day > DaysInMonth(c.month, r.year) ==> r.day == DaysInMonth(c.month, r.year)
    ensures r == c.(year := r.year, day := r.day)
  {
    var year := if c.year + delta < 2022 then 2022 else c.year + delta;
    var dim := DaysInMonth(c.month, year);
    c.(year := year, day := if c.day < dim then c.day else dim)
  }

  /** Month edit: the month clamps to 1..12 rather than wrapping, and the day
      is pulled back to the last day of the new month when it no longer fits. */
  function EditMonth(c: Clock, delta: Delta): (r: Clock)
    ensures 1 <= r.month <= 12
    ensures 1 <= c.month + delta <= 12 ==> r.month == c.month + delta
    ensures c.month + delta < 1 ==> r.month == 1
    ensures c.month + delta > 12 ==> r.month == 12
    ensures r.day <= DaysInMonth(r.month, r.year)
    ensures c.day <= DaysInMonth(r.month, c.year) ==> r.day == c.day
    ensures c.day > DaysInMonth(r.month, c.year) ==> r.day == DaysInMonth(r.month, c.year)
    ensures r == c.(month := r.month, day := r.day)
  {
    var m := c.month + delta;
    var month := if m < 1 then 1 else if m > 12 then 12 else m;
    var dim := DaysInMonth(month, c.year);
    c.(month := month, day := if c.day < dim then c.day else dim)
  }

  /** Day edit: the day clamps to 1..days-in-month rather than wrapping. */
  function EditDay(c: Clock, delta: Delta): (r: Clock)
    requires 1 <= c.month <= 12
    ensures 1 <= r.day <= DaysInMonth(c.month, c.year)
    ensures 1 <= c.day + delta <= DaysInMonth(c.month, c.year) ==> r.day == c.day + delta
    ensures c.day + delta < 1 ==> r.day == 1
    ensures c.day + delta > DaysInMonth(c.month, c.year) ==> r.day == DaysInMonth(c.month, c.year)
    ensures r == c.(day := r.day)
  {
    var d := c.day + delta;
    var dim := DaysInMonth(c.month, c.year);
    c.(day := if d > dim then dim else if d < 1 then 1 else d)
  }

  /** Hour edit: the hour wraps modulo 24 (Python's `%` with a positive
      divisor is non-negative, like Dafny's). */
  function EditHour(c: Clock, delta: Delta): (r: Clock)
    ensures 0 <= r.hour < 24
    ensures (r.hour - (c.hour + delta)) % 24 == 0
    ensures 0 <= c.hour + delta < 24 ==> r.hour == c.hour + delta
    ensures c.hour == 0 && delta == -1 ==> r.hour == 23
    ensures c.hour == 23 && delta == 1 ==> r.hour == 0
    ensures r == c.(hour := r.hour)
  {
    c.(hour := (c.hour + delta) % 24)
  }

  /** Minute edit: the minute wraps modulo 60. */
  function EditMinute(c: Clock, delta: Delta): (r: Clock)
    ensures 0 <= r.minute < 60
    ensures (r.minute - (c.minute + delta)) % 60 == 0
    ensures 0 <= c.minute + delta < 60 ==> r.minute == c.minute + delta
    ensures c.minute == 0 && delta == -1 ==> r.minute == 59
    ensures c.minute == 59 && delta == 1 ==> r.minute == 0
    ensures r == c.(minute := r.minute)
  {
    c.(minute := (c.minute + delta) % 60)
  }

  /** The tuple a commit writes: weekday and subsecond are 0, and the second
      is the one currently held, not 0. */
  function CommitTuple(c: Clock): RtcTuple {
    RtcTuple(c.year, c.month, c.day, 0, c.hour, c.minute, c.second, 0)
  }

  /** The "finish" entry: a non-zero adjustment leaves edit mode and writes
      the edited date/time to the RTC; no adjustment does nothing. */
  function EditFinish(c: Clock, delta: Delta): (r: (Clock, Option<RtcTuple>))
    ensures r.1.Some? <==> delta != 0
    ensures r.1.Some? ==> r.0 == c.(setClock := false) && r.1.value == CommitTuple(c)
    ensures r.1.None? ==> r.0 == c
  {
    if delta != 0 then (c.(setClock := false), Some(CommitTuple(c))) else (c, None)
  }

  /** Applies the adjustment to the field under the cursor. */
  function EditField(c: Clock, delta: Delta): (r: (Clock, Option<RtcTuple>))
    requires WellFormed(c)
  {
    match Cursors[c.cursor]
    case Finish => EditFinish(c, delta)
    case Year => (EditYear(c, delta), None)
    case Month => (EditMonth(c, delta), None)
    case Day => (EditDay(c, delta), None)
    case Hour => (EditHour(c, delta), None)
    case Minute => (EditMinute(c, delta), None)
  }

  /**
   * One invocation of the button handler.
   *
   * A press that no longer reads as pressed after the debounce is a bounce
   * and does nothing. B outside edit mode enters edit mode on "hour" and
   * redraws. A and Y outside edit mode do nothing. In edit mode every press
   * redraws: B moves the cursor (wrapping past "finish") and then re-applies
   * the field under the new cursor with no adjustment, which re-clamps the
   * day when landing on "year" or "month"; A and Y adjust the field under
   * the cursor, and on "finish" they leave edit mode and write the RTC,
   * leaving the cursor on "finish".
   */
  function Step(c: Clock, pin: Pin, stillPressed: bool): (r: StepResult)
    requires WellFormed(c)
    ensures WellFormed(r.clock)
    // A bounce changes nothing, redraws nothing and writes nothing.
    ensures !stillPressed ==> r == StepResult(c, false, None)
    // Outside edit mode only B acts, and it touches only the flag and the cursor.
    ensures stillPressed && !c.setClock ==>
      && r.write.None?
      && (r.redraw <==> pin == B)
      && r.clock == if pin == B then c.(setClock := true, cursor := 0) else c
    // In edit mode every press redraws; B stays in edit mode and moves the cursor.
    ensures stillPressed && c.setClock ==> r.redraw
    ensures stillPressed && c.setClock && pin == B ==>
      r.clock.setClock && r.write.None? && r.clock.cursor == NextCursor(c.cursor)
    ensures pin != B ==> r.clock.cursor == c.cursor
    // The RTC is written exactly when A or Y arrives on "finish" in edit mode,
    // which is exactly when the step leaves edit mode.
    ensures r.write.Some? <==> stillPressed && c.setClock && pin != B && Cursors[c.cursor] == Finish
    ensures r.write.Some? <==> c.setClock && !r.clock.setClock
    ensures r.write.Some? ==>
      && r.write.value == RtcTuple(c.year, c.month, c.day, 0, c.hour, c.minute, c.second, 0)
      && r.clock == c.(setClock := false)
  {
    if !stillPressed then
      StepResult(c, false, None)
    else if pin == B && !c.setClock then
      StepResult(c.(cursor := 0, setClock := true), true, None)
    else if c.setClock then
      var cursor := if pin == B then NextCursor(c.cursor) else c.cursor;
      var edited := EditField(c.(cursor := cursor), PinDelta(pin));
      StepResult(edited.0, true, edited.1)
    else
      StepResult(c, false, None)
  }

  /** Only the field under the cursor after the step changes; year and month
      edits may also pull the day back. Outside edit mode no field changes,
      and the cursor moves only when B enters edit mode or moves it. */
  lemma StepChangesOnlyFieldUnderCursor(c: Clock, pin: Pin, stillPressed: bool)
    requires WellFormed(c)
    ensures var r := Step(c, pin, stillPressed).clock;
      && (r.hour != c.hour ==> c.setClock && Cursors[r.cursor] == Hour)
      && (r.minute != c.minute ==> c.setClock && Cursors[r.cursor] == Minute)
      && (r.year != c.year ==> c.setClock && Cursors[r.cursor] == Year)
      && (r.month != c.month ==> c.setClock && Cursors[r.cursor] == Month)
      && (r.day != c.day ==> c.setClock && Cursors[r.cursor] in {Year, Month, Day})
      && r.second == c.second
      && (r.cursor != c.cursor ==> stillPressed && pin == B)
  {
  }

  /** A and Y in edit mode apply their adjustment to the field under the
      cursor by that field's edit rule; B first moves the cursor and then
      applies the rule of the field under the new cursor with no adjustment. */
  lemma StepEditsFieldUnderCursor(c: Clock, pin: Pin)
    requires WellFormed(c) && c.setClock
    ensures pin != B ==>
      var r := Step(c, pin, true).clock;
      && (Cursors[c.cursor] == Hour ==> r == EditHour(c, PinDelta(pin)))
      && (Cursors[c.cursor] == Minute ==> r == EditMinute(c, PinDelta(pin)))
      && (Cursors[c.cursor] == Year ==> r == EditYear(c, PinDelta(pin)))
      && (Cursors[c.cursor] == Month ==> r == EditMonth(c, PinDelta(pin)))
      && (Cursors[c.cursor] == Day ==> r == EditDay(c, PinDelta(pin)))
      && (Cursors[c.cursor] == Finish ==> r == EditFinish(c, PinDelta(pin)).0)
    ensures pin == B ==>
      var moved := c.(cursor := NextCursor(c.cursor));
      var r := Step(c, B, true).clock;
      && (Cursors[moved.cursor] == Hour ==> r == EditHour(moved, 0))
      && (Cursors[moved.cursor] == Minute ==> r == EditMinute(moved, 0))
      && (Cursors[moved.cursor] == Year ==> r == EditYear(moved, 0))
      && (Cursors[moved.cursor] == Month ==> r == EditMonth(moved, 0))
      && (Cursors[moved.cursor] == Day ==> r == EditDay(moved, 0))
      && (Cursors[moved.cursor] == Finish ==> r == moved)
  {
  }

  /** After an edit of a field, that field is in range: hours 0..23,
      minutes 0..59, a year of at least 2022, and (for year, month and day
      edits of a clock whose day was at least 1) a day that exists in the
      month. */
  lemma StepKeepsEditedFieldInRange(c: Clock, pin: Pin)
    requires WellFormed(c) && c.setClock
    ensures var r := Step(c, pin, true).clock;
      && (Cursors[r.cursor] == Hour ==> 0 <= r.hour < 24)
      && (Cursors[r.cursor] == Minute ==> 0 <= r.minute < 60)
      && (Cursors[r.cursor] == Year ==> r.year >= 2022)
      && (Cursors[r.cursor] == Month ==> 1 <= r.month <= 12)
      && (c.day >= 1 && Cursors[r.cursor] in {Year, Month, Day} ==>
            1 <= r.day <= DaysInMonth(r.month, r.year))
  {
  }

  /** A valid date and time stays valid across any step. */
  lemma StepPreservesCalendarValid(c: Clock, pin: Pin, stillPressed: bool)
    requires WellFormed(c) && CalendarValid(c)
    ensures CalendarValid(Step(c, pin, stillPressed).clock)
  {
  }
}
