/**
 * Start-up of the Pico clock and the main loop's refresh of the shown
 * date/time from the RTC (code.py, module level).
 */
module ClockBoot {
  import opened Wrappers
  import opened ClockEditor
  import opened ClockSession

  /** What a never-set RTC reports: 1 January 2021. */
  predicate IsUnsetReading(t: RtcTuple) {
    t.year == 2021 && t.month == 1 && t.day == 1
  }

  /** The date and time written to a never-set RTC: 28 February 2022, 12:00:00. */
  const DefaultSetting := RtcTuple(2022, 2, 28, 0, 12, 0, 0, 0)

  /** The sentinel check at start-up: a never-set RTC is given a default
      date and time; any other reading is left alone. */
  function BootFixup(reading: RtcTuple): (w: Option<RtcTuple>)
    ensures w.Some? <==> (reading.year, reading.month, reading.day) == (2021, 1, 1)
    ensures w.Some? ==> w.value == RtcTuple(2022, 2, 28, 0, 12, 0, 0, 0)
  {
    if IsUnsetReading(reading) then Some(DefaultSetting) else None
  }

  /** The globals loaded from an RTC reading; weekday and subsecond are
      dropped, the flag and the cursor are kept. */
  function Load(c: Clock, t: RtcTuple): Clock {
    c.(year := t.year, month := t.month, day := t.day,
       hour := t.hour, minute := t.minute, second := t.second)
  }

  /** The state at start-up and the RTC write the fixup makes, if any. */
  datatype BootResult = BootResult(clock: Clock, write: Option<RtcTuple>)

  /**
   * Start-up: the globals are loaded from the RTC reading before the
   * sentinel check, so a never-set RTC is rewritten but the globals still
   * hold 1 January 2021 until the main loop's next refresh. The clock starts
   * outside edit mode with the cursor on "hour".
   */
  function Boot(reading: RtcTuple): (r: BootResult)
    ensures !r.clock.setClock && r.clock.cursor == 0
    ensures && r.clock.year == reading.year && r.clock.month == reading.month
            && r.clock.day == reading.day && r.clock.hour == reading.hour
            && r.clock.minute == reading.minute && r.clock.second == reading.second
    ensures r.write == BootFixup(reading)
    ensures 1 <= reading.month <= 12 ==> WellFormed(r.clock)
  {
    BootResult(Load(Clock(false, 0, 0, 0, 0, 0, 0, 0), reading), BootFixup(reading))
  }

  /** One main-loop refresh: outside edit mode the globals are reloaded from
      the RTC; in edit mode the edited values are kept. */
  function Refresh(c: Clock, reading: RtcTuple): (r: Clock)
    ensures c.setClock ==> r == c
    ensures !c.setClock ==>
      && r.setClock == c.setClock && r.cursor == c.cursor
      && r.year == reading.year && r.month == reading.month && r.day == reading.day
      && r.hour == reading.hour && r.minute == reading.minute && r.second == reading.second
    ensures WellFormed(c) && 1 <= reading.month <= 12 ==> WellFormed(r)
  {
    if c.setClock then c else Load(c, reading)
  }

  /** The default setting is a valid date and time and is not itself the
      sentinel, so a restart after the fixup writes nothing again. */
  lemma FixupIsStable()
    ensures ValidWrite(DefaultSetting)
    ensures BootFixup(DefaultSetting) == None
  {
  }

  /** On a never-set RTC, the fixed-up date and time appears at the first
      refresh of the main loop. */
  lemma FixupShowsAtFirstRefresh(reading: RtcTuple)
    requires IsUnsetReading(reading)
    ensures var b := Boot(reading);
            b.write.Some? &&
            Refresh(b.clock, b.write.value) ==
              Clock(false, 0, 2022, 2, 28, 12, 0, 0)
  {
  }

  /** A commit reads back unchanged: if the RTC reports exactly the tuple
      the commit wrote, the next refresh leaves the clock as the commit
      left it. */
  lemma CommitReadsBack(c: Clock, pin: Pin)
    requires WellFormed(c) && c.setClock && Cursors[c.cursor] == Finish && pin != B
    ensures var s := Step(c, pin, true);
            s.write.Some? && Refresh(s.clock, s.write.value) == s.clock
  {
  }
}
