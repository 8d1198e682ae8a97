/** The older calendar service that the project-file parser uses to recompute
    finish dates. It has a fixed weekly rule (only Sunday is non-working), takes
    durations in (possibly fractional) days, and stamps its results with a time
    of day: 17:00 for a finish, 08:00 for a start.

    Holidays are the set the service loads from its store; here they are a
    parameter. */
module LegacyCalendar {
  import opened WorkCalendar
  import Numeric

  /** A date-time reduced to what these operations read and write: the day
      and the minute of that day. */
  datatype Stamp = Stamp(day: Day, minute: int)

  /** 17:00, the time `addWorkingDays` writes into every finish. */
  const EndOfDay: int := 17 * 60

  /** 08:00, the time `subtractDuration` writes into every start. */
  const StartOfDay: int := 8 * 60

  /** Sunday is never a working day; Monday to Saturday are, unless the date is a
      holiday. */
  predicate IsWorkingDay(holidays: set<Day>, d: Day) {
    Weekday(d) != 7 && d !in holidays
  }

  /** The same rule as the scheduling calendar with its default weekday mask. */
  function SundayCalendar(holidays: set<Day>): (cal: Calendar)
    ensures Valid(cal)
    ensures forall d :: WorkCalendar.IsWorkingDay(cal, d) <==> IsWorkingDay(holidays, d)
  {
    var cal := WithHolidays(holidays);
    assert 1 !in cal.nonWorkingDays;
    cal
  }

  /** Working days of the legacy rule in [lo, hi). */
  ghost function CountLegacy(holidays: set<Day>, lo: Day, hi: Day): nat {
    CountWorking(SundayCalendar(holidays), lo, hi)
  }

  /** The floor of `minutes / 480.0` is the integer floor quotient. */
  lemma FloorOfDays(minutes: int)
    ensures (minutes as real / 480.0).Floor == minutes / 480
  {
    var q := minutes / 480;
    assert minutes == 480 * q + minutes % 480;
    assert (q as real) <= minutes as real / 480.0 < (q + 1) as real;
  }

  /** `addWorkingDays`: moves to the first working day on or after the start's
      date, then takes floor(days) - 1 further working-day steps. The result is
      the max(1, floor(days))-th working day counted from the start's date, at
      17:00; below two days it is that first working day. */
  function AddWorkingDays(holidays: set<Day>, start: Stamp, durationDays: real): (r: Stamp)
    ensures r.minute == EndOfDay
    ensures start.day <= r.day && IsWorkingDay(holidays, r.day)
    ensures CountLegacy(holidays, start.day, r.day + 1) == Numeric.Max(1, durationDays.Floor)
    ensures durationDays < 2.0 ==> forall k :: start.day <= k < r.day ==> !IsWorkingDay(holidays, k)
  {
    var cal := SundayCalendar(holidays);
    var first := SkipForward(cal, start.day);
    var fullDays := durationDays.Floor;
    var day := if fullDays >= 1 then Advance(cal, first, fullDays - 1) else first;
    CountNone(cal, start.day, first);
    CountSplit(cal, start.day, first, day + 1);
    CountSplit(cal, first, first + 1, day + 1);
    Stamp(day, EndOfDay)
  }

  /** `addDuration`: `addWorkingDays` with the minutes read as days of 480
      minutes; the count uses the floor quotient, unlike the scheduling
      calendar's ceiling. */
  function AddDuration(holidays: set<Day>, start: Stamp, minutes: int): (r: Stamp)
    ensures r.minute == EndOfDay
    ensures start.day <= r.day && IsWorkingDay(holidays, r.day)
    ensures CountLegacy(holidays, start.day, r.day + 1) == Numeric.Max(1, minutes / 480)
  {
    FloorOfDays(minutes);
    AddWorkingDays(holidays, start, minutes as real / 480.0)
  }

  /** `subtractDuration`: no normalisation and no initial skip. From the end's
      own date it takes floor(minutes / 480) - 1 backward working-day steps,
      then sets the time to 08:00. */
  function SubtractDuration(holidays: set<Day>, end: Stamp, minutes: int): (r: Stamp)
    ensures r.minute == StartOfDay
    ensures minutes / 480 <= 1 ==> r.day == end.day
    ensures minutes / 480 >= 2 ==>
      r.day < end.day && IsWorkingDay(holidays, r.day)
      && CountLegacy(holidays, r.day, end.day) == minutes / 480 - 1
  {
    var cal := SundayCalendar(holidays);
    var fullDays := (minutes as real / 480.0).Floor;
    FloorOfDays(minutes);
    var day := if fullDays >= 1 then Retreat(cal, end.day, fullDays - 1) else end.day;
    Stamp(day, StartOfDay)
  }

  /** Subtracting a duration from the finish `addDuration` computed lands on the
      first working day on or after the original start, at 08:00. */
  lemma SubtractAfterAdd(holidays: set<Day>, start: Stamp, minutes: int)
    ensures SubtractDuration(holidays, AddDuration(holidays, start, minutes), minutes)
         == Stamp(SkipForward(SundayCalendar(holidays), start.day), StartOfDay)
  {
    var cal := SundayCalendar(holidays);
    var first := SkipForward(cal, start.day);
    FloorOfDays(minutes);
    var n := minutes / 480;
    if n >= 1 {
      RetreatAfterAdvance(cal, first, n - 1);
    }
  }
}
