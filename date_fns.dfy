/** The date-fns functions the calendar calls, written out with their
    standard semantics for the default locale (weeks start on Sunday).
    Each one works on local civil time through the JavaScript Date getters
    and setters modelled in JsDate. */
module DateFns {
  import opened Civil
  import opened JsDate

  function Min(a: int, b: int): int {
    if a <= b then a else b
  }

  /** `startOfDay`: midnight of the same day. */
  function StartOfDay(t: DateTime): DateTime {
    DateTime(t.day, 0)
  }

  /** `endOfDay`: 23:59:59 of the same day. */
  function EndOfDay(t: DateTime): DateTime {
    DateTime(t.day, 86399)
  }

  /** `isSameDay`: the two instants have the same start of day. */
  predicate IsSameDay(a: DateTime, b: DateTime) {
    Timestamp(StartOfDay(a)) == Timestamp(StartOfDay(b))
  }

  lemma IsSameDayIff(a: DateTime, b: DateTime)
    ensures IsSameDay(a, b) <==> a.day == b.day
  {
  }

  /** `isSameMonth`: same full year and same month. */
  predicate IsSameMonth(a: DateTime, b: DateTime) {
    FullYear(a) == FullYear(b) && MonthIndex(a) == MonthIndex(b)
  }

  /** `startOfWeek`: go back `getDay()` days to the Sunday, at midnight. */
  function StartOfWeek(t: DateTime): (r: DateTime)
    ensures r.secs == 0 && Weekday(r.day) == 0
    ensures t.day - 6 <= r.day <= t.day
  {
    hide CivilFromDays, DaysFromCivil;
    var diff := DayOfWeek(t);
    DateTime(t.day - diff, 0)
  }

  /** `endOfWeek`: go forward to the Saturday, at 23:59:59. */
  function EndOfWeek(t: DateTime): (r: DateTime)
    ensures r.secs == 86399 && Weekday(r.day) == 6
    ensures t.day <= r.day <= t.day + 6
    ensures r.day == StartOfWeek(t).day + 6
  {
    hide CivilFromDays, DaysFromCivil;
    var diff := 6 - DayOfWeek(t);
    DateTime(t.day + diff, 86399)
  }

  /** `startOfMonth`: `setDate(1)`, then midnight. */
  function StartOfMonth(t: DateTime): (r: DateTime)
    ensures r.secs == 0
    ensures CivilFromDays(r.day)
      == CivilDate(CivilFromDays(t.day).year, CivilFromDays(t.day).month, 1)
    ensures r.day == t.day - DayOfMonth(t) + 1
  {
    hide CivilFromDays, DaysFromCivil;
    MakeDayShift(t, 1 - DayOfMonth(t));
    SetDayOfMonth(t, 1);
    DateTime(MakeDay(FullYear(t), MonthIndex(t), 1), 0)
  }

  /** `addDays`: `setDate(getDate() + n)`, keeping the time of day. */
  function AddDays(t: DateTime, n: int): (r: DateTime)
    ensures r.day == t.day + n && r.secs == t.secs
  {
    hide CivilFromDays, DaysFromCivil;
    MakeDayShift(t, n);
    DateTime(MakeDay(FullYear(t), MonthIndex(t), DayOfMonth(t) + n), t.secs)
  }

  /** `addWeeks`: seven days per week. */
  function AddWeeks(t: DateTime, n: int): (r: DateTime)
    ensures r.day == t.day + 7 * n && r.secs == t.secs
  {
    AddDays(t, n * 7)
  }

  /** `subWeeks`. */
  function SubWeeks(t: DateTime, n: int): (r: DateTime)
    ensures r.day == t.day - 7 * n && r.secs == t.secs
  {
    AddWeeks(t, -n)
  }

  /** The year of the month `n` months after month `m` of year `y`. */
  function ShiftedYear(y: int, m: int, n: int): int {
    (12 * y + (m - 1) + n) / 12
  }

  /** The month (1..12) `n` months after month `m` of year `y`. */
  function ShiftedMonth(y: int, m: int, n: int): (r: int)
    ensures 1 <= r <= 12
  {
    (12 * y + (m - 1) + n) % 12 + 1
  }

  /** `addMonths`: move `n` months, keeping the day of the month but
      clamping it to the length of the target month, and keeping the time
      of day.  The target month's last day is found as day 0 of the month
      after it (`setMonth(getMonth() + n + 1, 0)`). */
  function AddMonths(t: DateTime, n: int): (r: DateTime)
    ensures r.secs == t.secs
    ensures var c := CivilFromDays(t.day);
      var ty := ShiftedYear(c.year, c.month, n);
      var tm := ShiftedMonth(c.year, c.month, n);
      CivilFromDays(r.day) == CivilDate(ty, tm, Min(c.day, DaysInMonth(ty, tm)))
  {
    hide CivilFromDays, DaysFromCivil;
    if n == 0 then
      ShiftedByZero(CivilFromDays(t.day));
      t
    else
      var dayOfMonth := DayOfMonth(t);
      var endOfDesiredMonth := DateTime(MakeDay(FullYear(t), MonthIndex(t) + n + 1, 0), t.secs);
      var daysInMonth := DayOfMonth(endOfDesiredMonth);
      AddMonthsEndOfDesiredMonth(t, n);
      if dayOfMonth >= daysInMonth then
        endOfDesiredMonth
      else
        var r := DateTime(MakeDay(FullYear(endOfDesiredMonth), MonthIndex(endOfDesiredMonth), dayOfMonth), t.secs);
        SetDayOfMonth(endOfDesiredMonth, dayOfMonth);
        r
  }

  lemma ShiftedByZero(c: CivilDate)
    requires Valid(c)
    ensures ShiftedYear(c.year, c.month, 0) == c.year && ShiftedMonth(c.year, c.month, 0) == c.month
    ensures Min(c.day, DaysInMonth(c.year, c.month)) == c.day
  {
  }

  /** `setFullYear(getFullYear(), getMonth(), d)` with a day `d` that the
      month has moves to day `d` of the same month. */
  lemma SetDayOfMonth(t: DateTime, d: int)
    requires 1 <= d <= DaysInMonth(CivilFromDays(t.day).year, CivilFromDays(t.day).month)
    ensures CivilFromDays(MakeDay(FullYear(t), MonthIndex(t), d))
      == CivilDate(CivilFromDays(t.day).year, CivilFromDays(t.day).month, d)
  {
    hide CivilFromDays, DaysFromCivil;
    var c := CivilFromDays(t.day);
    assert NormalYear(FullYear(t), MonthIndex(t)) == c.year;
    assert NormalMonth(MonthIndex(t)) == c.month;
    MakeDayCivil(FullYear(t), MonthIndex(t), d);
  }

  /** Day 0 of the month after the target month is the target month's last
      day. */
  lemma AddMonthsEndOfDesiredMonth(t: DateTime, n: int)
    ensures var c := CivilFromDays(t.day);
      var ty := ShiftedYear(c.year, c.month, n);
      var tm := ShiftedMonth(c.year, c.month, n);
      CivilFromDays(MakeDay(FullYear(t), MonthIndex(t) + n + 1, 0))
        == CivilDate(ty, tm, DaysInMonth(ty, tm))
  {
    hide CivilFromDays, DaysFromCivil;
    var c := CivilFromDays(t.day);
    var ty := ShiftedYear(c.year, c.month, n);
    var tm := ShiftedMonth(c.year, c.month, n);
    var k := MonthIndex(t) + n + 1;
    FollowingMonth(c.year, c.month, n);
    var next := FirstOfNextMonth(ty, tm);
    assert next == CivilDate(NormalYear(FullYear(t), k), NormalMonth(k), 1);
    assert MakeDay(FullYear(t), k, 0) == DaysFromCivil(next) - 1;
    MonthsAdjacent(ty, tm);
    CivilFromDaysFromCivil(CivilDate(ty, tm, DaysInMonth(ty, tm)));
  }

  /** Month index `m - 1 + n + 1`, normalised from year `y`, is the month
      after the target month. */
  lemma FollowingMonth(y: int, m: int, n: int)
    requires 1 <= m <= 12
    ensures var k := m - 1 + n + 1;
      FirstOfNextMonth(ShiftedYear(y, m, n), ShiftedMonth(y, m, n))
        == CivilDate(y + k / 12, k % 12 + 1, 1)
  {
    var j := 12 * y + (m - 1) + n;
    var k := m - 1 + n + 1;
    assert j + 1 == 12 * y + k;
    assert (j + 1) / 12 == y + k / 12 && (j + 1) % 12 == k % 12;
    if j % 12 == 11 {
      assert (j + 1) / 12 == j / 12 + 1 && (j + 1) % 12 == 0;
    } else {
      assert (j + 1) / 12 == j / 12 && (j + 1) % 12 == j % 12 + 1;
    }
  }

  /** `subMonths`. */
  function SubMonths(t: DateTime, n: int): DateTime {
    AddMonths(t, -n)
  }

  /** The loop of `eachDayOfInterval`: starting at midnight of day
      `current`, collect midnights while they are not after `endTime`. */
  function DaysUpTo(current: int, endTime: int): (r: seq<DateTime>)
    ensures |r| == if current * SecondsPerDay <= endTime then endTime / SecondsPerDay - current + 1 else 0
    ensures forall i :: 0 <= i < |r| ==> r[i] == DateTime(current + i, 0)
    decreases endTime - current * SecondsPerDay
  {
    if current * SecondsPerDay <= endTime then
      [DateTime(current, 0)] + DaysUpTo(current + 1, endTime)
    else
      []
  }

  /** `eachDayOfInterval`: every day from the start's day to the end's day,
      both included, each at midnight.  The library rejects an interval
      whose start is after its end. */
  function EachDayOfInterval(start: DateTime, end: DateTime): (r: seq<DateTime>)
    requires Timestamp(start) <= Timestamp(end)
    ensures |r| == end.day - start.day + 1
    ensures forall i :: 0 <= i < |r| ==> r[i] == DateTime(start.day + i, 0)
  {
    TimestampOrder(start, end);
    DaysUpTo(start.day, Timestamp(end))
  }
}
