/** The scheduling engine's working-day calendar: a weekday mask plus a holiday
    set, and the day walks built on it.

    Every public operation of the calendar sets the time of day to 00:00 before
    it walks, so a date is modelled as a whole day number and the
    normalisation is exact. Durations and lags arrive in minutes and are turned
    into whole days of `MinutesPerDay` (8 hours) by rounding UP.

    Two kinds of walk share one step (`NextWorkingDay` / `PreviousWorkingDay`):
    - a duration walk counts its first day as day 1, so `n` days take `n - 1` steps;
    - a lag walk is a pure offset, so `n` days take `n` steps. */
module WorkCalendar {
  import opened Wrappers
  import Numeric

  /** A calendar date as a day number; day 0 is 1970-01-01, a Thursday. */
  type Day = int

  /** hoursPerDay (8) * 60. */
  const MinutesPerDay: int := 480

  /** ISO weekday as PHP's `format('N')`: 1 = Monday ... 7 = Sunday. */
  function Weekday(d: Day): (w: int)
    ensures 1 <= w <= 7
  {
    (d + 3) % 7 + 1
  }

  /** `nonWorkingDays` holds ISO weekdays; `holidays` holds dates. */
  datatype Calendar = Calendar(nonWorkingDays: set<int>, holidays: set<Day>)

  /** A calendar built with its constructor: only Sunday is non-working. */
  function WithHolidays(holidays: set<Day>): (cal: Calendar)
    ensures forall d :: IsWorkingDay(cal, d) <==> Weekday(d) != 7 && d !in holidays
  {
    Calendar({7}, holidays)
  }

  predicate IsWorkingDay(cal: Calendar, d: Day) {
    Weekday(d) !in cal.nonWorkingDays && d !in cal.holidays
  }

  /** Some weekday is working. Every skip loop of the calendar ends only then. */
  predicate Valid(cal: Calendar) {
    exists w | 1 <= w <= 7 :: w !in cal.nonWorkingDays
  }

  /** When all seven weekdays are non-working there is no working day at all, so
      the skip loops (and every walk built on them) never return. */
  lemma NoWorkingDayWithoutWorkingWeekday(cal: Calendar, d: Day)
    requires forall w | 1 <= w <= 7 :: w in cal.nonWorkingDays
    ensures !IsWorkingDay(cal, d)
  {
    assert Weekday(d) in cal.nonWorkingDays;
  }

  // ---------------------------------------------------------------------------
  // Termination measures of the skip loops

  ghost function WorkingWeekday(cal: Calendar): (w: int)
    requires Valid(cal)
    ensures 1 <= w <= 7 && w !in cal.nonWorkingDays
  {
    var w :| 1 <= w <= 7 && w !in cal.nonWorkingDays; w
  }

  ghost function HolidaysFrom(holidays: set<Day>, d: Day): set<Day> {
    set x | x in holidays && x >= d
  }

  ghost function HolidaysUpTo(holidays: set<Day>, d: Day): set<Day> {
    set x | x in holidays && x <= d
  }

  lemma HolidaysFromStep(holidays: set<Day>, d: Day)
    ensures d in holidays ==> |HolidaysFrom(holidays, d + 1)| < |HolidaysFrom(holidays, d)|
    ensures d !in holidays ==> HolidaysFrom(holidays, d + 1) == HolidaysFrom(holidays, d)
  {
    assert HolidaysFrom(holidays, d + 1) == HolidaysFrom(holidays, d) - {d};
  }

  lemma HolidaysUpToStep(holidays: set<Day>, d: Day)
    ensures d in holidays ==> |HolidaysUpTo(holidays, d - 1)| < |HolidaysUpTo(holidays, d)|
    ensures d !in holidays ==> HolidaysUpTo(holidays, d - 1) == HolidaysUpTo(holidays, d)
  {
    assert HolidaysUpTo(holidays, d - 1) == HolidaysUpTo(holidays, d) - {d};
  }

  lemma WeekdayForwardStep(w: int, d: Day)
    requires 1 <= w <= 7 && Weekday(d) != w
    ensures (w - 4 - (d + 1)) % 7 < (w - 4 - d) % 7
  {
    assert (w - 4 - d) % 7 != 0;
  }

  lemma WeekdayBackwardStep(w: int, d: Day)
    requires 1 <= w <= 7 && Weekday(d) != w
    ensures ((d - 1) + 4 - w) % 7 < (d + 4 - w) % 7
  {
    assert (d + 4 - w) % 7 != 0;
  }

  // ---------------------------------------------------------------------------
  // Skips and single steps

  /** `skipNonWorkingDays`: the first working day on or after `d`. */
  function SkipForward(cal: Calendar, d: Day): (r: Day)
    requires Valid(cal)
    ensures d <= r && IsWorkingDay(cal, r)
    ensures forall k :: d <= k < r ==> !IsWorkingDay(cal, k)
    decreases |HolidaysFrom(cal.holidays, d)|, (WorkingWeekday(cal) - 4 - d) % 7
  {
    if IsWorkingDay(cal, d) then d
    else
      HolidaysFromStep(cal.holidays, d);
      if d in cal.holidays then SkipForward(cal, d + 1)
      else
        WeekdayForwardStep(WorkingWeekday(cal), d);
        SkipForward(cal, d + 1)
  }

  /** `skipNonWorkingDaysBackwards`: the last working day on or before `d`. */
  function SkipBackward(cal: Calendar, d: Day): (r: Day)
    requires Valid(cal)
    ensures r <= d && IsWorkingDay(cal, r)
    ensures forall k :: r < k <= d ==> !IsWorkingDay(cal, k)
    decreases |HolidaysUpTo(cal.holidays, d)|, (d + 4 - WorkingWeekday(cal)) % 7
  {
    if IsWorkingDay(cal, d) then d
    else
      HolidaysUpToStep(cal.holidays, d);
      if d in cal.holidays then SkipBackward(cal, d - 1)
      else
        WeekdayBackwardStep(WorkingWeekday(cal), d);
        SkipBackward(cal, d - 1)
  }

  /** `getNextWorkingDay`: the first working day strictly after `d`. */
  function NextWorkingDay(cal: Calendar, d: Day): (r: Day)
    requires Valid(cal)
    ensures d < r && IsWorkingDay(cal, r)
    ensures forall k :: d < k < r ==> !IsWorkingDay(cal, k)
  {
    SkipForward(cal, d + 1)
  }

  /** `getPreviousWorkingDay`: the last working day strictly before `d`. */
  function PreviousWorkingDay(cal: Calendar, d: Day): (r: Day)
    requires Valid(cal)
    ensures r < d && IsWorkingDay(cal, r)
    ensures forall k :: r < k < d ==> !IsWorkingDay(cal, k)
  {
    SkipBackward(cal, d - 1)
  }

  // ---------------------------------------------------------------------------
  // Counting working days

  /** Number of working days in the half-open interval [lo, hi). */
  ghost function CountWorking(cal: Calendar, lo: Day, hi: Day): nat
    decreases hi - lo
  {
    if hi <= lo then 0
    else CountWorking(cal, lo, hi - 1) + (if IsWorkingDay(cal, hi - 1) then 1 else 0)
  }

  lemma {:induction false} CountSplit(cal: Calendar, a: Day, b: Day, c: Day)
    requires a <= b <= c
    ensures CountWorking(cal, a, c) == CountWorking(cal, a, b) + CountWorking(cal, b, c)
    decreases c - b
  {
    if b < c {
      CountSplit(cal, a, b, c - 1);
    }
  }

  lemma {:induction false} CountNone(cal: Calendar, a: Day, b: Day)
    requires forall k :: a <= k < b ==> !IsWorkingDay(cal, k)
    ensures CountWorking(cal, a, b) == 0
    decreases b - a
  {
    if a < b {
      CountNone(cal, a, b - 1);
    }
  }

  /** The working days in [lo, x] are fewer than those in [lo, y] when x < y and
      y is a working day. */
  lemma CountGrowsAtWorkingDay(cal: Calendar, lo: Day, x: Day, y: Day)
    requires lo <= x + 1 && x < y && IsWorkingDay(cal, y)
    ensures CountWorking(cal, lo, x + 1) < CountWorking(cal, lo, y + 1)
  {
    CountSplit(cal, lo, x + 1, y + 1);
    CountSplit(cal, x + 1, y, y + 1);
  }

  /** The working days in [x, hi) outnumber those in [y, hi) when x < y <= hi and
      x is a working day. */
  lemma CountShrinksAfterWorkingDay(cal: Calendar, x: Day, y: Day, hi: Day)
    requires x < y <= hi && IsWorkingDay(cal, x)
    ensures CountWorking(cal, y, hi) < CountWorking(cal, x, hi)
  {
    CountSplit(cal, x, y, hi);
    CountSplit(cal, x, x + 1, y);
  }

  /** `d` is the only working day in (p, d] when p is the previous working day. */
  lemma CountStep(cal: Calendar, p: Day, d: Day)
    requires p < d && IsWorkingDay(cal, d)
    requires forall k :: p < k < d ==> !IsWorkingDay(cal, k)
    ensures CountWorking(cal, p + 1, d + 1) == 1
  {
    CountNone(cal, p + 1, d);
    CountSplit(cal, p + 1, d, d + 1);
  }

  /** A working day followed only by rest days up to `d` is the one working
      day from it up to, not including, `d`. */
  lemma CountStepBack(cal: Calendar, p: Day, d: Day)
    requires p < d && IsWorkingDay(cal, p)
    requires forall k :: p < k < d ==> !IsWorkingDay(cal, k)
    ensures CountWorking(cal, p, d) == 1
  {
    CountNone(cal, p + 1, d);
    CountSplit(cal, p, p + 1, d);
  }

  // ---------------------------------------------------------------------------
  // Walks

  /** `n` forward steps, each to the next working day: the loop of `addLag` and
      of `addDuration`. The result is the n-th working day after `d`. */
  function Advance(cal: Calendar, d: Day, n: nat): (r: Day)
    requires Valid(cal)
    ensures n == 0 ==> r == d
    ensures n > 0 ==> d < r && IsWorkingDay(cal, r)
    ensures CountWorking(cal, d + 1, r + 1) == n
    decreases n
  {
    if n == 0 then d
    else
      var next := NextWorkingDay(cal, d);
      var r := Advance(cal, next, n - 1);
      CountStep(cal, d, next);
      CountSplit(cal, d + 1, next + 1, r + 1);
      r
  }

  /** `n` backward steps, each to the previous working day: the loop of
      `subtractLag` and of `subtractDuration`. The result is the n-th working
      day before `d`. */
  function Retreat(cal: Calendar, d: Day, n: nat): (r: Day)
    requires Valid(cal)
    ensures n == 0 ==> r == d
    ensures n > 0 ==> r < d && IsWorkingDay(cal, r)
    ensures CountWorking(cal, r, d) == n
    decreases n
  {
    if n == 0 then d
    else
      var prev := PreviousWorkingDay(cal, d);
      var r := Retreat(cal, prev, n - 1);
      CountNone(cal, prev + 1, d);
      CountSplit(cal, prev, prev + 1, d);
      CountSplit(cal, r, prev, d);
      r
  }

  /** The n-th working day after `d` is the only working day `r > d` with exactly
      `n` working days in (d, r]. */
  lemma AdvanceUnique(cal: Calendar, d: Day, n: nat, r: Day)
    requires Valid(cal) && n > 0
    requires d < r && IsWorkingDay(cal, r) && CountWorking(cal, d + 1, r + 1) == n
    ensures r == Advance(cal, d, n)
  {
    var a := Advance(cal, d, n);
    if a < r {
      CountGrowsAtWorkingDay(cal, d + 1, a, r);
    } else if r < a {
      CountGrowsAtWorkingDay(cal, d + 1, r, a);
    }
  }

  /** The n-th working day before `d` is the only working day `r < d` with
      exactly `n` working days in [r, d). */
  lemma RetreatUnique(cal: Calendar, d: Day, n: nat, r: Day)
    requires Valid(cal) && n > 0
    requires r < d && IsWorkingDay(cal, r) && CountWorking(cal, r, d) == n
    ensures r == Retreat(cal, d, n)
  {
    var a := Retreat(cal, d, n);
    if a < r {
      CountShrinksAfterWorkingDay(cal, a, r, d);
    } else if r < a {
      CountShrinksAfterWorkingDay(cal, r, a, d);
    }
  }

  // ---------------------------------------------------------------------------
  // The public date arithmetic

  /** Whole days of a duration or lag: `(int)ceil(minutes / 480)`. */
  function DaysOf(minutes: int): int {
    Numeric.CeilDiv(minutes, MinutesPerDay)
  }

  /** `addLag`: a lag of n = ceil(minutes / 480) days moves to the n-th working day
      after `d`; n <= 0 (a zero or negative lag) leaves `d` as it is. */
  function AddLag(cal: Calendar, d: Day, minutes: int): (r: Day)
    requires Valid(cal)
    ensures DaysOf(minutes) <= 0 ==> r == d
    ensures DaysOf(minutes) > 0 ==>
      d < r && IsWorkingDay(cal, r) && CountWorking(cal, d + 1, r + 1) == DaysOf(minutes)
  {
    var n := DaysOf(minutes);
    Advance(cal, d, if n > 0 then n else 0)
  }

  /** `subtractLag`: the mirror of `AddLag`, walking backwards. */
  function SubtractLag(cal: Calendar, d: Day, minutes: int): (r: Day)
    requires Valid(cal)
    ensures DaysOf(minutes) <= 0 ==> r == d
    ensures DaysOf(minutes) > 0 ==>
      r < d && IsWorkingDay(cal, r) && CountWorking(cal, r, d) == DaysOf(minutes)
  {
    var n := DaysOf(minutes);
    Retreat(cal, d, if n > 0 then n else 0)
  }

  /** `addDuration`: the start day counts as day 1, so a task of n >= 2 days ends
      on the (n-1)-th working day after its start, and a task of at most one day
      (milestones included) ends on its start day. From a working start day the
      span [start, result] holds exactly n working days. */
  function AddDuration(cal: Calendar, start: Day, minutes: int): (r: Day)
    requires Valid(cal)
    ensures DaysOf(minutes) <= 1 ==> r == start
    ensures DaysOf(minutes) >= 2 ==>
      start < r && IsWorkingDay(cal, r) && CountWorking(cal, start + 1, r + 1) == DaysOf(minutes) - 1
    ensures IsWorkingDay(cal, start) && DaysOf(minutes) >= 1 ==>
      CountWorking(cal, start, r + 1) == DaysOf(minutes)
  {
    var n := DaysOf(minutes);
    var r := if n >= 1 then Advance(cal, start, n - 1) else start;
    CountSplit(cal, start, start + 1, r + 1);
    r
  }

  /** `subtractDuration`: the mirror of `AddDuration`, walking backwards from
      the finish day. */
  function SubtractDuration(cal: Calendar, finish: Day, minutes: int): (r: Day)
    requires Valid(cal)
    ensures DaysOf(minutes) <= 1 ==> r == finish
    ensures DaysOf(minutes) >= 2 ==>
      r < finish && IsWorkingDay(cal, r) && CountWorking(cal, r, finish) == DaysOf(minutes) - 1
    ensures IsWorkingDay(cal, finish) && DaysOf(minutes) >= 1 ==>
      CountWorking(cal, r, finish + 1) == DaysOf(minutes)
  {
    var n := DaysOf(minutes);
    var r := if n >= 1 then Retreat(cal, finish, n - 1) else finish;
    CountSplit(cal, r, finish, finish + 1);
    r
  }

  // ---------------------------------------------------------------------------
  // Round trips

  /** Stepping back from the next working day returns to a working day. */
  lemma PreviousAfterNext(cal: Calendar, d: Day)
    requires Valid(cal) && IsWorkingDay(cal, d)
    ensures PreviousWorkingDay(cal, NextWorkingDay(cal, d)) == d
  {
    var n := NextWorkingDay(cal, d);
    var p := PreviousWorkingDay(cal, n);
    assert !(p < d < n && IsWorkingDay(cal, d));
    assert !(d < p < n && IsWorkingDay(cal, p));
  }

  /** Stepping forward from the previous working day returns to a working day. */
  lemma NextAfterPrevious(cal: Calendar, d: Day)
    requires Valid(cal) && IsWorkingDay(cal, d)
    ensures NextWorkingDay(cal, PreviousWorkingDay(cal, d)) == d
  {
    var p := PreviousWorkingDay(cal, d);
    var n := NextWorkingDay(cal, p);
    assert !(p < n < d && IsWorkingDay(cal, n));
    assert !(p < d < n && IsWorkingDay(cal, d));
  }

  /** Walking `n` working days forward from a working day and `n` back returns
      to it. */
  lemma RetreatAfterAdvance(cal: Calendar, d: Day, n: nat)
    requires Valid(cal) && IsWorkingDay(cal, d)
    ensures Retreat(cal, Advance(cal, d, n), n) == d
  {
    if n > 0 {
      var r := Advance(cal, d, n);
      CountSplit(cal, d, d + 1, r);
      CountSplit(cal, d + 1, r, r + 1);
      RetreatUnique(cal, r, n, d);
    }
  }

  /** Walking `n` working days back from a working day and `n` forward returns
      to it. */
  lemma AdvanceAfterRetreat(cal: Calendar, d: Day, n: nat)
    requires Valid(cal) && IsWorkingDay(cal, d)
    ensures Advance(cal, Retreat(cal, d, n), n) == d
  {
    if n > 0 {
      var r := Retreat(cal, d, n);
      CountSplit(cal, r, r + 1, d);
      CountSplit(cal, r + 1, d, d + 1);
      AdvanceUnique(cal, r, n, d);
    }
  }

  /** The duration walk back from a task's finish finds its (working) start again. */
  lemma SubtractDurationAfterAddDuration(cal: Calendar, start: Day, minutes: int)
    requires Valid(cal) && IsWorkingDay(cal, start)
    ensures SubtractDuration(cal, AddDuration(cal, start, minutes), minutes) == start
  {
    if DaysOf(minutes) >= 1 {
      RetreatAfterAdvance(cal, start, DaysOf(minutes) - 1);
    }
  }

  /** The duration walk forward from a task's start finds its (working) finish again. */
  lemma AddDurationAfterSubtractDuration(cal: Calendar, finish: Day, minutes: int)
    requires Valid(cal) && IsWorkingDay(cal, finish)
    ensures AddDuration(cal, SubtractDuration(cal, finish, minutes), minutes) == finish
  {
    if DaysOf(minutes) >= 1 {
      AdvanceAfterRetreat(cal, finish, DaysOf(minutes) - 1);
    }
  }

  /** Undoing a lag from a working day. */
  lemma SubtractLagAfterAddLag(cal: Calendar, d: Day, minutes: int)
    requires Valid(cal) && IsWorkingDay(cal, d)
    ensures SubtractLag(cal, AddLag(cal, d, minutes), minutes) == d
  {
    if DaysOf(minutes) > 0 {
      RetreatAfterAdvance(cal, d, DaysOf(minutes));
    }
  }

  /** Undoing a backward lag from a working day. */
  lemma AddLagAfterSubtractLag(cal: Calendar, d: Day, minutes: int)
    requires Valid(cal) && IsWorkingDay(cal, d)
    ensures AddLag(cal, SubtractLag(cal, d, minutes), minutes) == d
  {
    if DaysOf(minutes) > 0 {
      AdvanceAfterRetreat(cal, d, DaysOf(minutes));
    }
  }

  // ---------------------------------------------------------------------------
  // Weekday configuration

  datatype CalendarError = UnhandledMatchError

  /** Project-file weekday numbering (1 = Sunday ... 7 = Saturday) to ISO. */
  function XmlDayToIso(t: int): (w: int)
    requires 1 <= t <= 7
    ensures 1 <= w <= 7
  {
    if t == 1 then 7 else t - 1
  }

  /** ISO weekday to the project-file numbering; inverse of `XmlDayToIso`. */
  function IsoToXmlDay(w: int): (t: int)
    requires 1 <= w <= 7
    ensures 1 <= t <= 7 && XmlDayToIso(t) == w
  {
    if w == 7 then 1 else w + 1
  }

  /** `setWeekDays`: the non-working weekdays become the ISO images of the keys
      mapped to false. A false-valued key outside 1..7 has no arm in the
      `match` and raises an error; true-valued keys are never matched. */
  function SetWeekDays(cal: Calendar, config: map<int, bool>): (r: Result<Calendar, CalendarError>)
    ensures r.Success? <==> forall t | t in config && !config[t] :: 1 <= t <= 7
    ensures r.Success? ==> r.value.holidays == cal.holidays
    ensures r.Success? ==> forall w ::
      w in r.value.nonWorkingDays <==>
        1 <= w <= 7 && IsoToXmlDay(w) in config && !config[IsoToXmlDay(w)]
  {
    if exists t | t in config && !config[t] :: !(1 <= t <= 7) then Failure(UnhandledMatchError)
    else
      var nonWorking := set t | t in config && !config[t] :: XmlDayToIso(t);
      assert forall w | 1 <= w <= 7 && IsoToXmlDay(w) in config && !config[IsoToXmlDay(w)] ::
        w == XmlDayToIso(IsoToXmlDay(w));
      Success(Calendar(nonWorking, cal.holidays))
  }
}
