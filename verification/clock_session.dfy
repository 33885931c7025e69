/**
 * Sequences of button presses fed to the handler of `ClockEditor`, and the
 * properties of whole editing sessions.
 */
module ClockSession {
  import opened Wrappers
  import opened Calendar
  import opened ClockEditor

  /** One handler invocation: the pin that fired and whether it still read
      as pressed after the debounce. */
  datatype Press = Press(pin: Pin, stillPressed: bool)

  /** The outcome of a sequence of presses: the final clock, how many
      redraws were requested and the RTC writes in order. */
  datatype RunResult = RunResult(clock: Clock, redraws: nat, writes: seq<RtcTuple>)

  /** A real date and time of day, with the weekday and subsecond the
      editor always writes. The year and the second are not bounded. */
  predicate ValidWrite(t: RtcTuple) {
    && 1 <= t.month <= 12
    && 1 <= t.day <= DaysInMonth(t.month, t.year)
    && 0 <= t.hour < 24
    && 0 <= t.minute < 60
    && t.weekday == 0
    && t.subsecond == 0
  }

  /** Runs the handler once per press, in order. */
  function Run(c: Clock, presses: seq<Press>): (r: RunResult)
    requires WellFormed(c)
    ensures WellFormed(r.clock)
    ensures r.redraws <= |presses|
    ensures |r.writes| <= |presses|
    decreases |presses|
  {
    if |presses| == 0 then
      RunResult(c, 0, [])
    else
      var s := Step(c, presses[0].pin, presses[0].stillPressed);
      var rest := Run(s.clock, presses[1..]);
      RunResult(rest.clock,
                rest.redraws + (if s.redraw then 1 else 0),
                (if s.write.Some? then [s.write.value] else []) + rest.writes)
  }

  /** A session that starts on a valid date and time ends on one, and every
      date and time it writes to the RTC is valid. The second is never
      edited: every write carries the second held at the start. */
  lemma {:induction false} RunKeepsCalendarValid(c: Clock, presses: seq<Press>)
    requires WellFormed(c) && CalendarValid(c)
    ensures CalendarValid(Run(c, presses).clock)
    ensures Run(c, presses).clock.second == c.second
    ensures forall w :: w in Run(c, presses).writes ==> ValidWrite(w) && w.second == c.second
    decreases |presses|
  {
    if |presses| > 0 {
      var s := Step(c, presses[0].pin, presses[0].stillPressed);
      StepPreservesCalendarValid(c, presses[0].pin, presses[0].stillPressed);
      StepChangesOnlyFieldUnderCursor(c, presses[0].pin, presses[0].stillPressed);
      RunKeepsCalendarValid(s.clock, presses[1..]);
    }
  }

  /** Presses that all bounce leave the clock untouched, draw nothing and
      write nothing. */
  lemma {:induction false} BouncesAreInert(c: Clock, presses: seq<Press>)
    requires WellFormed(c)
    requires forall i :: 0 <= i < |presses| ==> !presses[i].stillPressed
    ensures Run(c, presses) == RunResult(c, 0, [])
  {
    if |presses| > 0 {
      BouncesAreInert(c, presses[1..]);
    }
  }

  /** Outside edit mode, A and Y presses change nothing, draw nothing and
      write nothing. */
  lemma {:induction false} IdleIgnoresAandY(c: Clock, presses: seq<Press>)
    requires WellFormed(c) && !c.setClock
    requires forall i :: 0 <= i < |presses| ==> presses[i].pin != B
    ensures Run(c, presses) == RunResult(c, 0, [])
  {
    if |presses| > 0 {
      IdleIgnoresAandY(c, presses[1..]);
    }
  }

  /** The cursor after `n` moves from `i`. */
  function CursorAfter(i: int, n: nat): (j: int)
    requires 0 <= i < |Cursors|
    ensures 0 <= j < |Cursors|
    decreases n
  {
    if n == 0 then i else CursorAfter(NextCursor(i), n - 1)
  }

  /** `n` moves of the cursor are `n` places round the cycle of six. */
  lemma {:induction false} CursorAfterIsModular(i: int, n: nat)
    requires 0 <= i < |Cursors|
    ensures CursorAfter(i, n) == (i + n) % |Cursors|
    decreases n
  {
    if n > 0 {
      CursorAfterIsModular(NextCursor(i), n - 1);
    }
  }

  /** In edit mode, B on a valid date and time with a year of at least 2022
      only moves the cursor: re-applying the new field with no adjustment
      changes nothing. */
  lemma AdvanceOnlyMovesCursor(c: Clock)
    requires WellFormed(c) && c.setClock && CalendarValid(c) && c.year >= 2022
    ensures Step(c, B, true) == StepResult(c.(cursor := NextCursor(c.cursor)), true, None)
  {
  }

  /** B presses in edit mode move the cursor one place round the cycle each,
      request one redraw each and never write the RTC. */
  lemma {:induction false} AdvancesOnlyMoveCursor(c: Clock, presses: seq<Press>)
    requires WellFormed(c) && c.setClock && CalendarValid(c) && c.year >= 2022
    requires forall i :: 0 <= i < |presses| ==> presses[i] == Press(B, true)
    ensures Run(c, presses) ==
            RunResult(c.(cursor := CursorAfter(c.cursor, |presses|)), |presses|, [])
    decreases |presses|
  {
    if |presses| > 0 {
      var c1 := c.(cursor := NextCursor(c.cursor));
      AdvanceOnlyMovesCursor(c);
      QuietStep(c, c1, presses);
      AdvancesOnlyMoveCursor(c1, presses[1..]);
    }
  }

  /** A step that redraws, writes nothing and lands on `c1` adds one redraw
      to the run from `c1`. */
  lemma QuietStep(c: Clock, c1: Clock, presses: seq<Press>)
    requires WellFormed(c) && WellFormed(c1) && |presses| > 0
    requires Step(c, presses[0].pin, presses[0].stillPressed) == StepResult(c1, true, None)
    ensures Run(c, presses) == Run(c1, presses[1..]).(redraws := Run(c1, presses[1..]).redraws + 1)
  {
  }

  /** A whole number of laps of moves brings the cursor back to where it
      started. */
  lemma LapsReturn(i: int, n: nat)
    requires 0 <= i < |Cursors| && n % |Cursors| == 0
    ensures CursorAfter(i, n) == i
  {
    CursorAfterIsModular(i, n);
  }

  /** Any whole number of laps of B presses (six per lap) takes the cursor
      past "finish" and back to where it was, without writing the RTC or
      changing the clock. */
  lemma CursorLapsAreIdentity(c: Clock, presses: seq<Press>)
    requires WellFormed(c) && c.setClock && CalendarValid(c) && c.year >= 2022
    requires forall i :: 0 <= i < |presses| ==> presses[i] == Press(B, true)
    requires |presses| % |Cursors| == 0
    ensures Run(c, presses) == RunResult(c, |presses|, [])
  {
    LapsReturn(c.cursor, |presses|);
    AdvancesOnlyMoveCursor(c, presses);
  }

  /** The first press of a non-empty sequence is one step of the handler. */
  lemma RunStep(c: Clock, presses: seq<Press>)
    requires WellFormed(c) && |presses| > 0
    ensures var s := Step(c, presses[0].pin, presses[0].stillPressed);
            var rest := Run(s.clock, presses[1..]);
            Run(c, presses) ==
            RunResult(rest.clock, rest.redraws + (if s.redraw then 1 else 0),
                      (if s.write.Some? then [s.write.value] else []) + rest.writes)
  {
  }

  /** Decrementing the year at the floor keeps it at 2022, however often it
      is repeated: each press redraws, and nothing else changes. */
  lemma {:induction false} YearFloorHolds(c: Clock, presses: seq<Press>)
    requires WellFormed(c) && c.setClock && Cursors[c.cursor] == Year
    requires CalendarValid(c) && c.year == 2022
    requires forall i :: 0 <= i < |presses| ==> presses[i] == Press(Y, true)
    ensures Run(c, presses) == RunResult(c, |presses|, [])
    decreases |presses|
  {
    if |presses| > 0 {
      assert Step(c, Y, true) == StepResult(c, true, None);
      YearFloorHolds(c, presses[1..]);
      RunStep(c, presses);
    }
  }

  /** On "hour", A and Y undo each other. */
  lemma HourEditsCancel(c: Clock)
    requires WellFormed(c) && c.setClock && Cursors[c.cursor] == Hour && 0 <= c.hour < 24
    ensures Step(Step(c, A, true).clock, Y, true).clock == c
    ensures Step(Step(c, Y, true).clock, A, true).clock == c
  {
  }

  /** On "minute", A and Y undo each other. */
  lemma MinuteEditsCancel(c: Clock)
    requires WellFormed(c) && c.setClock && Cursors[c.cursor] == Minute && 0 <= c.minute < 60
    ensures Step(Step(c, A, true).clock, Y, true).clock == c
    ensures Step(Step(c, Y, true).clock, A, true).clock == c
  {
  }

  /** On "day", A and Y undo each other away from the ends of the month,
      where the clamp makes the edit lossy. */
  lemma DayEditsCancel(c: Clock)
    requires WellFormed(c) && c.setClock && Cursors[c.cursor] == Day
    requires 1 <= c.day <= DaysInMonth(c.month, c.year)
    ensures c.day < DaysInMonth(c.month, c.year) ==> Step(Step(c, A, true).clock, Y, true).clock == c
    ensures c.day > 1 ==> Step(Step(c, Y, true).clock, A, true).clock == c
    ensures c.day == DaysInMonth(c.month, c.year) ==> Step(c, A, true).clock == c
    ensures c.day == 1 ==> Step(c, Y, true).clock == c
  {
  }

  /** On "month", A and Y undo each other unless the month is at an end of
      the year or the day had to be pulled back to fit the neighbouring month. */
  lemma MonthEditsCancel(c: Clock)
    requires WellFormed(c) && c.setClock && Cursors[c.cursor] == Month
    requires 1 <= c.day <= DaysInMonth(c.month, c.year)
    ensures c.month < 12 && c.day <= DaysInMonth(c.month + 1, c.year) ==>
      Step(Step(c, A, true).clock, Y, true).clock == c
    ensures c.month > 1 && c.day <= DaysInMonth(c.month - 1, c.year) ==>
      Step(Step(c, Y, true).clock, A, true).clock == c
  {
  }

  /** On "year", A and Y undo each other above the floor, unless the day had
      to be pulled back (29 February into a common year). */
  lemma YearEditsCancel(c: Clock)
    requires WellFormed(c) && c.setClock && Cursors[c.cursor] == Year && c.year >= 2022
    requires 1 <= c.day <= DaysInMonth(c.month, c.year)
    ensures c.day <= DaysInMonth(c.month, c.year + 1) ==>
      Step(Step(c, A, true).clock, Y, true).clock == c
    ensures c.year > 2022 && c.day <= DaysInMonth(c.month, c.year - 1) ==>
      Step(Step(c, Y, true).clock, A, true).clock == c
  {
  }

  /** Incrementing the year from 29 February 2024 gives 28 February 2025. */
  lemma LeapDayYearIncrement(c: Clock)
    requires WellFormed(c) && c.setClock && Cursors[c.cursor] == Year
    requires c.year == 2024 && c.month == 2 && c.day == 29
    ensures Step(c, A, true) == StepResult(c.(year := 2025, day := 28), true, None)
  {
  }

  /** A whole editing session from idle: enter edit mode, raise the hour from
      4 to 5, lower the minute from 31 to 30, step past year, month and day
      to "finish" and press A. Exactly one RTC write happens, carrying the
      edited time and the second that was held all along, edit mode is left
      and the cursor stays on "finish". */
  lemma EditSessionCommitsOnce(c: Clock)
    requires WellFormed(c) && !c.setClock && CalendarValid(c) && c.year >= 2022
    requires c.hour == 4 && c.minute == 31
    ensures Run(c, Session()) ==
            RunResult(c.(cursor := 5, hour := 5, minute := 30), 9,
                      [RtcTuple(c.year, c.month, c.day, 0, 5, 30, c.second, 0)])
  {
    var p := Session();
    var c4 := c.(setClock := true, cursor := 1, hour := 5, minute := 30);
    var w := RtcTuple(c.year, c.month, c.day, 0, 5, 30, c.second, 0);
    assert Run(c, p[..4]) == RunResult(c4, 4, []) by {
      SessionSetsTime(c);
    }
    assert Run(c4, p[4..]) == RunResult(c4.(setClock := false, cursor := 5), 5, [w]) by {
      SessionCommits(c4);
    }
    assert p == p[..4] + p[4..];
    RunAppend(c, p[..4], p[4..]);
  }

  /** The first four presses of `Session`: enter edit mode, raise the hour
      from 4 to 5, move to "minute", lower it from 31 to 30. */
  lemma SessionSetsTime(c: Clock)
    requires WellFormed(c) && !c.setClock && c.hour == 4 && c.minute == 31
    ensures Run(c, Session()[..4]) ==
            RunResult(c.(setClock := true, cursor := 1, hour := 5, minute := 30), 4, [])
  {
    var p := Session()[..4];
    var c1 := c.(setClock := true, cursor := 0);
    var c2 := c1.(hour := 5);
    var c3 := c2.(cursor := 1);
    var c4 := c3.(minute := 30);
    assert Run(c4, p[4..]) == RunResult(c4, 0, []);
    assert Run(c3, p[3..]) == RunResult(c4, 1, []) by {
      assert Step(c3, Y, true) == StepResult(c4, true, None);
      QuietStep(c3, c4, p[3..]);
    }
    assert Run(c2, p[2..]) == RunResult(c4, 2, []) by {
      assert Step(c2, B, true) == StepResult(c3, true, None);
      QuietStep(c2, c3, p[2..]);
    }
    assert Run(c1, p[1..]) == RunResult(c4, 3, []) by {
      assert Step(c1, A, true) == StepResult(c2, true, None);
      QuietStep(c1, c2, p[1..]);
    }
    assert Step(c, B, true) == StepResult(c1, true, None);
    QuietStep(c, c1, p);
  }

  /** The last five presses of `Session`: four B presses take the cursor
      from "minute" to "finish", and A commits. */
  lemma SessionCommits(c: Clock)
    requires WellFormed(c) && c.setClock && c.cursor == 1 && CalendarValid(c) && c.year >= 2022
    ensures Run(c, Session()[4..]) ==
            RunResult(c.(setClock := false, cursor := 5), 5,
                      [RtcTuple(c.year, c.month, c.day, 0, c.hour, c.minute, c.second, 0)])
  {
    var p := Session()[4..];
    var w := RtcTuple(c.year, c.month, c.day, 0, c.hour, c.minute, c.second, 0);
    var c8 := c.(cursor := 5);
    var c9 := c8.(setClock := false);
    assert Run(c8, p[4..]) == RunResult(c9, 1, [w]) by {
      assert Step(c8, A, true) == StepResult(c9, true, Some(w));
      RunStep(c8, p[4..]);
    }
    assert p == p[..4] + p[4..];
    AdvancesOnlyMoveCursor(c, p[..4]);
    assert CursorAfter(1, 4) == 5;
    RunAppend(c, p[..4], p[4..]);
  }

  /** The presses of `EditSessionCommitsOnce`. */
  function Session(): seq<Press> {
    [Press(B, true), Press(A, true), Press(B, true), Press(Y, true),
     Press(B, true), Press(B, true), Press(B, true), Press(B, true),
     Press(A, true)]
  }

  /** Running two sequences of presses one after the other is running their
      concatenation: redraws add up and writes are concatenated. */
  lemma {:induction false} RunAppend(c: Clock, first: seq<Press>, second: seq<Press>)
    requires WellFormed(c)
    ensures var r1 := Run(c, first);
            var r2 := Run(r1.clock, second);
            Run(c, first + second) == RunResult(r2.clock, r1.redraws + r2.redraws, r1.writes + r2.writes)
    decreases |first|
  {
    if |first| == 0 {
      assert first + second == second;
    } else {
      var s := Step(c, first[0].pin, first[0].stillPressed);
      var w := if s.write.Some? then [s.write.value] else [];
      var rest := Run(s.clock, first[1..]);
      var r2 := Run(rest.clock, second);
      assert (first + second)[0] == first[0] && (first + second)[1..] == first[1..] + second;
      RunAppend(s.clock, first[1..], second);
      assert w + (rest.writes + r2.writes) == (w + rest.writes) + r2.writes;
      RunStep(c, first + second);
      RunStep(c, first);
    }
  }
}
