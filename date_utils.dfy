/** The calendar's date utilities: day and month comparison, the month and
    week grids, the events shown on a day, navigation by one period, the
    header title and the weekday labels. */
module DateUtils {
  import opened Civil
  import opened JsDate
  import DateFns
  import opened DateFormat
  import opened CalendarTypes

  /* ---- comparisons ---- */

  /** `isSameDay`. */
  function IsSameDay(date1: DateTime, date2: DateTime): bool {
    DateFns.IsSameDay(date1, date2)
  }

  /** Two instants are on the same day exactly when they have the same day
      number, that is the same civil date; the time of day is ignored. */
  lemma IsSameDayIff(date1: DateTime, date2: DateTime)
    ensures IsSameDay(date1, date2) <==> date1.day == date2.day
    ensures IsSameDay(date1, date2) <==> CivilFromDays(date1.day) == CivilFromDays(date2.day)
  {
    hide CivilFromDays, DaysFromCivil;
    DateFns.IsSameDayIff(date1, date2);
    DaysFromCivilFromDays(date1.day);
    DaysFromCivilFromDays(date2.day);
  }

  /** `isSameMonth`. */
  function IsSameMonth(date1: DateTime, date2: DateTime): bool {
    DateFns.IsSameMonth(date1, date2)
  }

  /** Two instants are in the same month exactly when their months start
      on the same day. */
  lemma IsSameMonthIff(date1: DateTime, date2: DateTime)
    ensures IsSameMonth(date1, date2) <==> DateFns.StartOfMonth(date1) == DateFns.StartOfMonth(date2)
  {
    hide CivilFromDays, DaysFromCivil;
    DaysFromCivilFromDays(DateFns.StartOfMonth(date1).day);
    DaysFromCivilFromDays(DateFns.StartOfMonth(date2).day);
  }

  /* ---- grids ---- */

  /** `getMonthGrid` as written: from the Sunday on or before the 1st of
      the month to `addWeeks` of that Sunday by 5, both included. */
  function GetMonthGrid(date: DateTime): seq<DateTime> {
    var firstDayOfMonth := DateFns.StartOfMonth(date);
    var startDate := DateFns.StartOfWeek(firstDayOfMonth);
    var endDate := DateFns.AddWeeks(startDate, 5);
    DateFns.EachDayOfInterval(startDate, endDate)
  }

  /** The grid as written is 36 consecutive midnights from the Sunday on
      or before the 1st of the month, so its last cell is a Sunday: not
      the 42 cells ending on a Saturday that its comment promises.  The
      1st of the month is always in it. */
  lemma MonthGridShape(date: DateTime)
    ensures var g := GetMonthGrid(date);
      |g| == 36 && forall i :: 0 <= i < |g| ==> g[i] == DateTime(g[0].day + i, 0)
    ensures var g := GetMonthGrid(date);
      var first := DateFns.StartOfMonth(date).day;
      Weekday(g[0].day) == 0 && g[0].day <= first <= g[0].day + 6
    ensures Weekday(GetMonthGrid(date)[35].day) == 0
    ensures DateFns.StartOfMonth(date) in GetMonthGrid(date)
  {
    hide CivilFromDays, DaysFromCivil, Weekday;
    var firstDayOfMonth := DateFns.StartOfMonth(date);
    var startDate := DateFns.StartOfWeek(firstDayOfMonth);
    var g := GetMonthGrid(date);
    WeekdayWeeks(startDate.day, 5);
    assert g[firstDayOfMonth.day - startDate.day] == firstDayOfMonth;
  }

  /** A grid that starts on the Sunday on or before day `first` puts day
      `first + k` in column `Weekday(first) + k`. */
  lemma SundayOffset(sunday: int, first: int)
    requires Weekday(sunday) == 0 && sunday <= first <= sunday + 6
    ensures first - sunday == Weekday(first)
  {
    hide Weekday;
    WeekdayAdd(sunday, first - sunday);
  }

  /** The grid as written holds every day of the month except one: the
      31st of a month whose 1st is a Saturday falls on the Monday after
      the grid's last cell. */
  lemma MonthGridCoversMonth(date: DateTime, x: DateTime)
    requires DateFns.IsSameMonth(x, date)
    ensures var first := DateFns.StartOfMonth(date).day;
      (DateFns.StartOfDay(x) in GetMonthGrid(date))
        <==> !(Weekday(first) == 6 && DayOfMonth(x) == 31)
  {
    hide CivilFromDays, DaysFromCivil, Weekday;
    MonthGridShape(date);
    IsSameMonthIff(x, date);
    var g := GetMonthGrid(date);
    var first := DateFns.StartOfMonth(date).day;
    SundayOffset(g[0].day, first);
    var k := x.day - g[0].day;
    assert k == Weekday(first) + DayOfMonth(x) - 1;
    if 0 <= k < 36 {
      assert g[k] == DateFns.StartOfDay(x);
    }
  }

  /** March 2025 starts on a Saturday, so the grid of any day of it stops
      at Sunday March 30th and lacks March 31st. */
  lemma MonthGridMissesMarch31(date: DateTime, last: DateTime)
    requires CivilFromDays(date.day).year == 2025 && CivilFromDays(date.day).month == 3
    requires CivilFromDays(last.day) == CivilDate(2025, 3, 31)
    ensures DateFns.IsSameMonth(last, date)
    ensures DateFns.StartOfDay(last) !in GetMonthGrid(date)
  {
    hide CivilFromDays, DaysFromCivil, Weekday;
    var first := DateFns.StartOfMonth(date).day;
    DaysFromCivilFromDays(first);
    ExampleDays();
    MonthGridCoversMonth(date, last);
  }

  /** The grid its comment describes: six full weeks, from the Sunday on
      or before the 1st to the Saturday of the sixth week. */
  function GetMonthGridSixWeeks(date: DateTime): seq<DateTime> {
    var startDate := DateFns.StartOfWeek(DateFns.StartOfMonth(date));
    var endDate := DateFns.EndOfWeek(DateFns.AddWeeks(startDate, 5));
    DateFns.EachDayOfInterval(startDate, endDate)
  }

  /** The six-week grid is 42 consecutive midnights from the Sunday on or
      before the 1st to a Saturday. */
  lemma SixWeekGridShape(date: DateTime)
    ensures var g := GetMonthGridSixWeeks(date);
      |g| == 42 && forall i :: 0 <= i < |g| ==> g[i] == DateTime(g[0].day + i, 0)
    ensures var g := GetMonthGridSixWeeks(date);
      var first := DateFns.StartOfMonth(date).day;
      Weekday(g[0].day) == 0 && g[0].day <= first <= g[0].day + 6
    ensures Weekday(GetMonthGridSixWeeks(date)[41].day) == 6
  {
    hide CivilFromDays, DaysFromCivil, Weekday;
    var startDate := DateFns.StartOfWeek(DateFns.StartOfMonth(date));
    var sixth := DateFns.AddWeeks(startDate, 5);
    WeekdayWeeks(startDate.day, 5);
    SundayOffset(DateFns.StartOfWeek(sixth).day, sixth.day);
    assert DateFns.EndOfWeek(sixth).day == startDate.day + 41;
  }

  /** The six-week grid holds every day of the month. */
  lemma SixWeekGridCoversMonth(date: DateTime, x: DateTime)
    requires DateFns.IsSameMonth(x, date)
    ensures DateFns.StartOfDay(x) in GetMonthGridSixWeeks(date)
  {
    hide CivilFromDays, DaysFromCivil, Weekday;
    SixWeekGridShape(date);
    IsSameMonthIff(x, date);
    var g := GetMonthGridSixWeeks(date);
    var first := DateFns.StartOfMonth(date).day;
    SundayOffset(g[0].day, first);
    var k := x.day - g[0].day;
    assert k == Weekday(first) + DayOfMonth(x) - 1;
    assert g[k] == DateFns.StartOfDay(x);
  }

  /** `getWeekDays`: the days from the week's Sunday to its Saturday. */
  function GetWeekDays(date: DateTime): seq<DateTime> {
    var start := DateFns.StartOfWeek(date);
    var end := DateFns.EndOfWeek(date);
    DateFns.EachDayOfInterval(start, end)
  }

  /** The week is seven consecutive midnights, Sunday to Saturday, and
      `date`'s own day sits at its weekday's index. */
  lemma WeekDaysShape(date: DateTime)
    ensures var r := GetWeekDays(date);
      |r| == 7 && forall i :: 0 <= i < 7 ==> r[i] == DateTime(r[0].day + i, 0) && Weekday(r[i].day) == i
    ensures GetWeekDays(date)[DayOfWeek(date)] == DateFns.StartOfDay(date)
  {
    hide CivilFromDays, DaysFromCivil, Weekday;
    var r := GetWeekDays(date);
    var start := DateFns.StartOfWeek(date);
    forall i | 0 <= i < 7
      ensures Weekday(r[i].day) == i
    {
      WeekdayAdd(start.day, i);
    }
    SundayOffset(start.day, date.day);
  }

  /* ---- events of a day ---- */

  /** The local `startOfDay` helper: a new Date from the year, month and
      day fields. */
  function StartOfDay(date: DateTime): DateTime {
    NewDate(FullYear(date), MonthIndex(date), DayOfMonth(date), 0, 0, 0)
  }

  /** The local `endOfDay` helper: the same fields at 23:59:59. */
  function EndOfDay(date: DateTime): DateTime {
    NewDate(FullYear(date), MonthIndex(date), DayOfMonth(date), 23, 59, 59)
  }

  /** The instant lies in a year from 0 to 99, whose year the Date
      constructor reads as 1900 + y. */
  predicate InTwoDigitYear(t: DateTime) {
    0 <= FullYear(t) <= 99
  }

  /** The day the local helpers land on for day `z`: `z` itself, except in
      years 0 to 99, where it is the same month and day of the month
      counted in year 1900 + y. */
  function HelperDay(z: int): int {
    var c := CivilFromDays(z);
    if 0 <= c.year <= 99 then DaysFromCivil(CivilDate(1900 + c.year, c.month, 1)) + c.day - 1 else z
  }

  /** In years 0 to 99 the helpers land on the same month and day of year
      1900 + y; February 29th of year 0, a leap year, becomes March 1st
      1900, since 1900 is not a leap year. */
  lemma HelperDayCivil(z: int)
    ensures var c := CivilFromDays(z);
      0 <= c.year <= 99 && c != CivilDate(0, 2, 29) ==>
        CivilFromDays(HelperDay(z)) == CivilDate(1900 + c.year, c.month, c.day)
    ensures CivilFromDays(z) == CivilDate(0, 2, 29) ==> CivilFromDays(HelperDay(z)) == CivilDate(1900, 3, 1)
  {
    hide CivilFromDays, DaysFromCivil;
    var c := CivilFromDays(z);
    if 0 <= c.year <= 99 && c != CivilDate(0, 2, 29) {
      if c.year != 0 {
        assert (1900 + c.year) % 4 == c.year % 4;
        assert (1900 + c.year) % 100 == c.year % 100 == c.year;
        assert IsLeapYear(1900 + c.year) <==> IsLeapYear(c.year);
      }
      assert c.day <= DaysInMonth(1900 + c.year, c.month);
      RunInMonth(1900 + c.year, c.month, c.day);
    }
    if c == CivilDate(0, 2, 29) {
      DaysOfMonthConsecutive(1900, 2, 28);
      MonthsAdjacent(1900, 2);
      CivilFromDaysFromCivil(CivilDate(1900, 3, 1));
    }
  }

  /** The two helpers give midnight and 23:59:59 of the day `HelperDay`
      names, which is the instant's own day outside years 0 to 99. */
  lemma DayBounds(date: DateTime)
    ensures StartOfDay(date) == DateTime(HelperDay(date.day), 0)
    ensures EndOfDay(date) == DateTime(HelperDay(date.day), 86399)
    ensures !InTwoDigitYear(date) ==>
      StartOfDay(date) == DateTime(date.day, 0) && EndOfDay(date) == DateTime(date.day, 86399)
  {
    hide CivilFromDays, DaysFromCivil, Weekday;
    var c := CivilFromDays(date.day);
    assert FullYear(date) == c.year && MonthIndex(date) == c.month - 1 && DayOfMonth(date) == c.day;
    if 0 <= c.year <= 99 {
      assert NormalYear(1900 + c.year, c.month - 1) == 1900 + c.year && NormalMonth(c.month - 1) == c.month;
      assert MakeDay(1900 + c.year, c.month - 1, c.day) == HelperDay(date.day);
    } else {
      MakeDayShift(date, 0);
      assert HelperDay(date.day) == date.day;
    }
  }

  /** The filter callback of `getEventsForDay`: the event starts no later
      than the end of the day and ends no earlier than its start. */
  predicate OccursOn(event: CalendarEvent, day: DateTime) {
    var eventStartDay := StartOfDay(event.startDate);
    var eventEndDay := EndOfDay(event.endDate);
    var targetDayStart := StartOfDay(day);
    var targetDayEnd := EndOfDay(day);
    Timestamp(eventStartDay) <= Timestamp(targetDayEnd)
      && Timestamp(eventEndDay) >= Timestamp(targetDayStart)
  }

  /** Only days matter: an event is on a day exactly when the helpers'
      day for it lies between the helpers' days for the event's start and
      end, whatever the times. */
  lemma OccursOnIff(event: CalendarEvent, day: DateTime)
    ensures OccursOn(event, day)
      <==> HelperDay(event.startDate.day) <= HelperDay(day.day) <= HelperDay(event.endDate.day)
  {
    hide CivilFromDays, DaysFromCivil, Weekday, HelperDay;
    DayBounds(event.startDate);
    DayBounds(event.endDate);
    DayBounds(day);
    TimestampOrder(StartOfDay(event.startDate), EndOfDay(day));
    TimestampOrder(StartOfDay(day), EndOfDay(event.endDate));
  }

  /** Away from years 0 to 99, an event is on a day exactly when that day
      lies between the event's start day and its end day. */
  lemma OccursOnDayRange(event: CalendarEvent, day: DateTime)
    requires !InTwoDigitYear(event.startDate) && !InTwoDigitYear(event.endDate) && !InTwoDigitYear(day)
    ensures OccursOn(event, day) <==> event.startDate.day <= day.day <= event.endDate.day
  {
    hide CivilFromDays, DaysFromCivil, Weekday, OccursOn;
    OccursOnIff(event, day);
  }

  /** `getEventsForDay`: `events.filter` with `OccursOn`. */
  function GetEventsForDay(events: seq<CalendarEvent>, day: DateTime): seq<CalendarEvent> {
    if events == [] then []
    else (if OccursOn(events[0], day) then [events[0]] else []) + GetEventsForDay(events[1..], day)
  }

  /** `a` is `b` with some elements left out, in the same order. */
  ghost predicate IsSubsequence<T>(a: seq<T>, b: seq<T>) {
    if a == [] then true
    else if b == [] then false
    else if a[0] == b[0] then IsSubsequence(a[1..], b[1..])
    else IsSubsequence(a, b[1..])
  }

  /** The filter keeps the order of the events it keeps. */
  lemma {:induction false} EventsForDayInOrder(events: seq<CalendarEvent>, day: DateTime)
    ensures IsSubsequence(GetEventsForDay(events, day), events)
  {
    hide CivilFromDays, DaysFromCivil, Weekday, OccursOn;
    if events != [] {
      var rest := GetEventsForDay(events[1..], day);
      EventsForDayInOrder(events[1..], day);
      if OccursOn(events[0], day) {
        assert ([events[0]] + rest)[1..] == rest;
      } else {
        assert [] + rest == rest;
        SkipKeepsSubsequence(rest, events);
      }
    }
  }

  /** A subsequence of the tail is a subsequence of the whole. */
  lemma {:induction false} SkipKeepsSubsequence<T>(a: seq<T>, b: seq<T>)
    requires b != [] && IsSubsequence(a, b[1..])
    ensures IsSubsequence(a, b)
    decreases |b|, 1
  {
    if a != [] && a[0] == b[0] {
      SubsequenceTail(a, b[1..]);
    }
  }

  /** A subsequence stays one when its head is removed. */
  lemma {:induction false} SubsequenceTail<T>(a: seq<T>, b: seq<T>)
    requires a != [] && IsSubsequence(a, b)
    ensures IsSubsequence(a[1..], b)
    decreases |b|, 2
  {
    assert b != [];
    if a[0] != b[0] {
      SubsequenceTail(a, b[1..]);
    }
    SkipKeepsSubsequence(a[1..], b);
  }

  /** The filter keeps every copy of each event on the day and no copy of
      any other event. */
  lemma {:induction false} EventsForDayCount(events: seq<CalendarEvent>, day: DateTime, e: CalendarEvent)
    ensures multiset(GetEventsForDay(events, day))[e]
      == if OccursOn(e, day) then multiset(events)[e] else 0
  {
    hide CivilFromDays, DaysFromCivil, Weekday, OccursOn;
    if events != [] {
      EventsForDayCount(events[1..], day, e);
      assert events == [events[0]] + events[1..];
    }
  }

  /** An event is returned exactly when it is in the list and on the day. */
  lemma EventsForDayMembers(events: seq<CalendarEvent>, day: DateTime, e: CalendarEvent)
    ensures e in GetEventsForDay(events, day) <==> e in events && OccursOn(e, day)
  {
    hide CivilFromDays, DaysFromCivil, Weekday;
    EventsForDayCount(events, day, e);
  }

  /** The filter distributes over concatenation. */
  lemma {:induction false} GetEventsForDayAppend(a: seq<CalendarEvent>, b: seq<CalendarEvent>, day: DateTime)
    ensures GetEventsForDay(a + b, day) == GetEventsForDay(a, day) + GetEventsForDay(b, day)
  {
    hide CivilFromDays, DaysFromCivil, Weekday, OccursOn;
    if a == [] {
      assert a + b == b;
    } else {
      assert (a + b)[0] == a[0] && (a + b)[1..] == a[1..] + b;
      GetEventsForDayAppend(a[1..], b, day);
    }
  }

  /** An event whose end day is before its start day appears on no day,
      when neither end lies in years 0 to 99. */
  lemma InvertedEventNeverShown(events: seq<CalendarEvent>, e: CalendarEvent, day: DateTime)
    requires e.endDate.day < e.startDate.day
    requires !InTwoDigitYear(e.startDate) && !InTwoDigitYear(e.endDate)
    ensures e !in GetEventsForDay(events, day)
  {
    hide CivilFromDays, DaysFromCivil, Weekday, HelperDay;
    EventsForDayMembers(events, day, e);
    OccursOnIff(e, day);
    DayBounds(e.startDate);
    DayBounds(e.endDate);
  }

  /** An event appears on every day of its span, the first and last
      included, when none of the three days lies in years 0 to 99. */
  lemma EventShownOnEveryDayOfSpan(events: seq<CalendarEvent>, e: CalendarEvent, day: DateTime)
    requires e in events && e.startDate.day <= day.day <= e.endDate.day
    requires !InTwoDigitYear(e.startDate) && !InTwoDigitYear(e.endDate) && !InTwoDigitYear(day)
    ensures e in GetEventsForDay(events, day)
  {
    hide CivilFromDays, DaysFromCivil, Weekday, OccursOn;
    EventsForDayMembers(events, day, e);
    OccursOnDayRange(e, day);
  }

  /** An event on June 15th of year 50 is shown on June 15th 1950, a day
      after its end, because the helpers read its year as 1950. */
  lemma TwoDigitYearEventShown(e: CalendarEvent, day: DateTime)
    requires CivilFromDays(e.startDate.day) == CivilDate(50, 6, 15)
    requires CivilFromDays(e.endDate.day) == CivilDate(50, 6, 15)
    requires CivilFromDays(day.day) == CivilDate(1950, 6, 15)
    ensures e.endDate.day < day.day
    ensures OccursOn(e, day)
  {
    hide CivilFromDays, DaysFromCivil, Weekday, OccursOn;
    TwoDigitYearDays();
    DaysFromCivilFromDays(e.startDate.day);
    DaysFromCivilFromDays(e.endDate.day);
    DaysFromCivilFromDays(day.day);
    OccursOnIff(e, day);
  }

  /** The filter callback with date-fns `startOfDay` and `endOfDay`, which
      set the time of day and keep the day. */
  predicate OccursOnByDay(event: CalendarEvent, day: DateTime) {
    Timestamp(DateFns.StartOfDay(event.startDate)) <= Timestamp(DateFns.EndOfDay(day))
      && Timestamp(DateFns.EndOfDay(event.endDate)) >= Timestamp(DateFns.StartOfDay(day))
  }

  /** With those helpers an event is on a day exactly when the day lies
      between the event's start day and its end day, in every year. */
  lemma OccursOnByDayIff(event: CalendarEvent, day: DateTime)
    ensures OccursOnByDay(event, day) <==> event.startDate.day <= day.day <= event.endDate.day
  {
    TimestampOrder(DateFns.StartOfDay(event.startDate), DateFns.EndOfDay(day));
    TimestampOrder(DateFns.StartOfDay(day), DateFns.EndOfDay(event.endDate));
  }

  /* ---- navigation ---- */

  /** `goToNext`: one month on in month view, one week on otherwise. */
  function GoToNext(date: DateTime, view: ViewType): DateTime {
    if view == Month then DateFns.AddMonths(date, 1) else DateFns.AddWeeks(date, 1)
  }

  /** `goToPrevious`: one month back in month view, one week back otherwise. */
  function GoToPrevious(date: DateTime, view: ViewType): DateTime {
    if view == Month then DateFns.SubMonths(date, 1) else DateFns.SubWeeks(date, 1)
  }

  /** In week view navigation moves exactly seven days and keeps the time
      of day. */
  lemma WeekNavigation(date: DateTime)
    ensures GoToNext(date, Week) == DateTime(date.day + 7, date.secs)
    ensures GoToPrevious(date, Week) == DateTime(date.day - 7, date.secs)
  {
    hide CivilFromDays, DaysFromCivil, Weekday;
  }

  /** In week view the two directions undo each other. */
  lemma WeekNavigationInverse(date: DateTime)
    ensures GoToPrevious(GoToNext(date, Week), Week) == date
    ensures GoToNext(GoToPrevious(date, Week), Week) == date
  {
    hide CivilFromDays, DaysFromCivil, Weekday;
    WeekNavigation(date);
    WeekNavigation(GoToNext(date, Week));
    WeekNavigation(GoToPrevious(date, Week));
  }

  /** The month after month `m` of year `y`, and the month before it. */
  function NextMonthYear(y: int, m: int): int { if m == 12 then y + 1 else y }
  function NextMonthOf(m: int): int { if m == 12 then 1 else m + 1 }
  function PreviousMonthYear(y: int, m: int): int { if m == 1 then y - 1 else y }
  function PreviousMonthOf(m: int): int { if m == 1 then 12 else m - 1 }

  /** In month view `goToNext` lands in the following month (December
      rolls over to January of the next year), on the same day of the
      month clamped to that month's length, at the same time of day. */
  lemma MonthNext(date: DateTime)
    ensures var c := CivilFromDays(date.day);
      var ny := NextMonthYear(c.year, c.month);
      var nm := NextMonthOf(c.month);
      var r := GoToNext(date, Month);
      CivilFromDays(r.day) == CivilDate(ny, nm, DateFns.Min(c.day, DaysInMonth(ny, nm)))
      && r.secs == date.secs
  {
    hide CivilFromDays, DaysFromCivil, Weekday;
    var c := CivilFromDays(date.day);
    assert DateFns.ShiftedYear(c.year, c.month, 1) == NextMonthYear(c.year, c.month);
    assert DateFns.ShiftedMonth(c.year, c.month, 1) == NextMonthOf(c.month);
  }

  /** In month view `goToPrevious` lands in the preceding month (January
      rolls back to December of the previous year), clamped likewise. */
  lemma MonthPrevious(date: DateTime)
    ensures var c := CivilFromDays(date.day);
      var py := PreviousMonthYear(c.year, c.month);
      var pm := PreviousMonthOf(c.month);
      var r := GoToPrevious(date, Month);
      CivilFromDays(r.day) == CivilDate(py, pm, DateFns.Min(c.day, DaysInMonth(py, pm)))
      && r.secs == date.secs
  {
    hide CivilFromDays, DaysFromCivil, Weekday;
    var c := CivilFromDays(date.day);
    assert DateFns.ShiftedYear(c.year, c.month, -1) == PreviousMonthYear(c.year, c.month);
    assert DateFns.ShiftedMonth(c.year, c.month, -1) == PreviousMonthOf(c.month);
  }

  /** In month view going back and then forward returns to the same
      instant exactly when the day of the month exists in the previous
      month; otherwise the clamp loses the day (March 31st goes back to
      February 28th or 29th and forward to March 28th or 29th). */
  lemma MonthBackAndForth(date: DateTime)
    ensures var c := CivilFromDays(date.day);
      (GoToNext(GoToPrevious(date, Month), Month) == date)
        <==> c.day <= DaysInMonth(PreviousMonthYear(c.year, c.month), PreviousMonthOf(c.month))
  {
    hide CivilFromDays, DaysFromCivil, Weekday;
    var c := CivilFromDays(date.day);
    var p := GoToPrevious(date, Month);
    var q := GoToNext(p, Month);
    MonthPrevious(date);
    MonthNext(p);
    var cp := CivilFromDays(p.day);
    assert NextMonthYear(cp.year, cp.month) == c.year && NextMonthOf(cp.month) == c.month;
    DaysFromCivilFromDays(date.day);
    DaysFromCivilFromDays(q.day);
  }

  /** In month view going forward and then back returns to the same
      instant exactly when the day of the month exists in the next month. */
  lemma MonthForthAndBack(date: DateTime)
    ensures var c := CivilFromDays(date.day);
      (GoToPrevious(GoToNext(date, Month), Month) == date)
        <==> c.day <= DaysInMonth(NextMonthYear(c.year, c.month), NextMonthOf(c.month))
  {
    hide CivilFromDays, DaysFromCivil, Weekday;
    var c := CivilFromDays(date.day);
    var p := GoToNext(date, Month);
    var q := GoToPrevious(p, Month);
    MonthNext(date);
    MonthPrevious(p);
    var cp := CivilFromDays(p.day);
    assert PreviousMonthYear(cp.year, cp.month) == c.year && PreviousMonthOf(cp.month) == c.month;
    DaysFromCivilFromDays(date.day);
    DaysFromCivilFromDays(q.day);
  }

  /* ---- labels ---- */

  /** `formatHeaderDate`: "MMMM yyyy" in month view; in week view the range
      from the week's Sunday to its Saturday, naming the Saturday's month
      only when its abbreviation differs from the Sunday's, with the
      Saturday's year. */
  function FormatHeaderDate(date: DateTime, view: ViewType): string {
    if view == Month then
      MonthName(MonthIndex(date) + 1) + " " + YearToken(FullYear(date))
    else
      var weekStart := DateFns.StartOfWeek(date);
      var weekEnd := DateFns.EndOfWeek(date);
      var startMonth := MonthAbbrev(MonthIndex(weekStart) + 1);
      var endMonth := MonthAbbrev(MonthIndex(weekEnd) + 1);
      if startMonth == endMonth then
        startMonth + " " + Ordinal(DayOfMonth(weekStart)) + " - " + Ordinal(DayOfMonth(weekEnd))
          + ", " + YearToken(FullYear(weekEnd))
      else
        startMonth + " " + Ordinal(DayOfMonth(weekStart)) + " - " + endMonth + " "
          + Ordinal(DayOfMonth(weekEnd)) + ", " + YearToken(FullYear(weekEnd))
  }

  /** The week header in terms of the civil dates of the week's Sunday and
      Saturday: the Saturday's month is named only when it is another
      month than the Sunday's, and the year is always the Saturday's. */
  lemma WeekHeader(date: DateTime)
    ensures var s := CivilFromDays(date.day - DayOfWeek(date));
      var e := CivilFromDays(date.day - DayOfWeek(date) + 6);
      FormatHeaderDate(date, Week)
        == MonthAbbrev(s.month) + " " + Ordinal(s.day) + " - "
           + (if s.month == e.month then "" else MonthAbbrev(e.month) + " ")
           + Ordinal(e.day) + ", " + YearToken(e.year)
  {
    hide CivilFromDays, DaysFromCivil, Weekday, MonthAbbrev, MonthName, Ordinal, YearToken, Digits, DecimalValue;
    var s := CivilFromDays(date.day - DayOfWeek(date));
    var e := CivilFromDays(date.day - DayOfWeek(date) + 6);
    var weekStart := DateFns.StartOfWeek(date);
    var weekEnd := DateFns.EndOfWeek(date);
    assert weekStart.day == date.day - DayOfWeek(date);
    assert weekEnd.day == date.day - DayOfWeek(date) + 6;
    assert MonthIndex(weekStart) + 1 == s.month && DayOfMonth(weekStart) == s.day;
    assert MonthIndex(weekEnd) + 1 == e.month && DayOfMonth(weekEnd) == e.day;
    assert FullYear(weekEnd) == e.year;
    MonthAbbrevInjective(s.month, e.month);
    var a := MonthAbbrev(s.month) + " " + Ordinal(s.day) + " - ";
    var z := Ordinal(e.day) + ", " + YearToken(e.year);
    if s.month != e.month {
      assert a + (MonthAbbrev(e.month) + " ") + z
        == MonthAbbrev(s.month) + " " + Ordinal(s.day) + " - " + MonthAbbrev(e.month) + " "
           + Ordinal(e.day) + ", " + YearToken(e.year);
    } else {
      assert a + "" + z
        == MonthAbbrev(s.month) + " " + Ordinal(s.day) + " - " + Ordinal(e.day) + ", " + YearToken(e.year);
    }
  }

  /** The month header of any day of March 2024 is "March 2024". */
  lemma MonthHeaderExample(date: DateTime)
    requires CivilFromDays(date.day).year == 2024 && CivilFromDays(date.day).month == 3
    ensures FormatHeaderDate(date, Month) == "March 2024"
  {
    hide CivilFromDays, DaysFromCivil, Weekday, YearToken;
    YearTokenExamples();
  }

  /** The week of March 1st 2024 runs from Sunday February 25th to Saturday
      March 2nd, so both month names are shown. */
  lemma WeekHeaderAcrossMonthsExample(date: DateTime)
    requires CivilFromDays(date.day) == CivilDate(2024, 3, 1)
    ensures FormatHeaderDate(date, Week) == "Feb 25th - Mar 2nd, 2024"
  {
    hide CivilFromDays, DaysFromCivil, Weekday, MonthAbbrev, Ordinal, YearToken, FormatHeaderDate, Digits, DecimalValue;
    ExampleDays();
    MonthAbbrevExamples();
    OrdinalExamples();
    YearTokenExamples();
    DaysFromCivilFromDays(date.day);
    CivilFromDaysFromCivil(CivilDate(2024, 2, 25));
    CivilFromDaysFromCivil(CivilDate(2024, 3, 2));
    WeekHeader(date);
  }

  /** The week of December 31st 2024 ends on Saturday January 4th 2025,
      and the header takes that Saturday's year. */
  lemma WeekHeaderAcrossYearsExample(date: DateTime)
    requires CivilFromDays(date.day) == CivilDate(2024, 12, 31)
    ensures FormatHeaderDate(date, Week) == "Dec 29th - Jan 4th, 2025"
  {
    hide CivilFromDays, DaysFromCivil, Weekday, MonthAbbrev, Ordinal, YearToken, FormatHeaderDate, Digits, DecimalValue;
    ExampleDays();
    MonthAbbrevExamples();
    OrdinalExamples();
    YearTokenExamples();
    DaysFromCivilFromDays(date.day);
    CivilFromDaysFromCivil(CivilDate(2024, 12, 29));
    CivilFromDaysFromCivil(CivilDate(2025, 1, 4));
    WeekHeader(date);
  }

  /** The week of March 13th 2024 lies within March. */
  lemma WeekHeaderWithinMonthExample(date: DateTime)
    requires CivilFromDays(date.day) == CivilDate(2024, 3, 13)
    ensures FormatHeaderDate(date, Week) == "Mar 10th - 16th, 2024"
  {
    hide CivilFromDays, DaysFromCivil, Weekday, MonthAbbrev, Ordinal, YearToken, FormatHeaderDate, Digits, DecimalValue;
    ExampleDays();
    MonthAbbrevExamples();
    OrdinalExamples();
    YearTokenExamples();
    DaysFromCivilFromDays(date.day);
    CivilFromDaysFromCivil(CivilDate(2024, 3, 10));
    CivilFromDaysFromCivil(CivilDate(2024, 3, 16));
    WeekHeader(date);
  }

  /** `getDayNames` with the default locale: the abbreviated weekday names
      of the seven days from January 1st 2023 onwards. */
  function GetDayNames(): seq<string> {
    seq(7, dayIndex => WeekdayAbbrev(DayOfWeek(NewDate(2023, 0, 1 + dayIndex, 0, 0, 0))))
  }

  /** January 1st 2023 was a Sunday, so the labels run Sunday to Saturday:
      label `i` names weekday `i`. */
  lemma DayNamesFromSunday()
    ensures |GetDayNames()| == 7
    ensures forall i :: 0 <= i < 7 ==> GetDayNames()[i] == WeekdayAbbrev(i)
    ensures GetDayNames() == ["Sun", "Mon", "Tue", "Wed", "Thu", "Fri", "Sat"]
  {
    hide *;
    forall i | 0 <= i < 7
      ensures GetDayNames()[i] == WeekdayAbbrev(i)
    {
      DayNameAt(i);
    }
    WeekdayAbbrevs();
  }

  /** Label `i` is the name of day `19358 + i`, whose weekday is `i`. */
  lemma DayNameAt(i: int)
    requires 0 <= i < 7
    ensures GetDayNames()[i] == WeekdayAbbrev(i)
  {
    hide CivilFromDays, DaysFromCivil, Weekday, WeekdayAbbrev, MakeDay, NewDate;
    assert GetDayNames()[i] == WeekdayAbbrev(DayOfWeek(NewDate(2023, 0, 1 + i, 0, 0, 0)));
    NewYear2023(i);
    WeekdayAdd(19358, i);
  }

  /** Day `d` of January 2023 at midnight is day `19357 + d`. */
  lemma NewYear2023(i: int)
    requires 0 <= i < 7
    ensures NewDate(2023, 0, 1 + i, 0, 0, 0) == DateTime(19358 + i, 0)
    ensures Weekday(19358) == 0
  {
    hide CivilFromDays, DaysFromCivil, Weekday;
    ExampleDays();
    assert NormalYear(2023, 0) == 2023 && NormalMonth(0) == 1;
  }

  /** The seven abbreviations, as one sequence. */
  lemma WeekdayAbbrevs()
    ensures seq(7, i requires 0 <= i < 7 => WeekdayAbbrev(i)) == ["Sun", "Mon", "Tue", "Wed", "Thu", "Fri", "Sat"]
  {
  }

  /* ---- the days of the examples ---- */

  /** March 1st of the years the examples use. */
  lemma MarchFirsts()
    ensures MarchFirst(2022) == 19052 && MarchFirst(2023) == 19417
    ensures MarchFirst(2024) == 19783 && MarchFirst(2025) == 20148
  {
    MarchFirstOf(2022, 5, 22);
    MarchFirstOf(2023, 5, 23);
    MarchFirstOf(2024, 5, 24);
    MarchFirstOf(2025, 5, 25);
    assert YearStart(22) == 8035 && YearStart(23) == 8400;
    assert YearStart(24) == 8766 && YearStart(25) == 9131;
  }

  /** Day numbers and weekdays of the days the examples use. */
  lemma ExampleDays()
    ensures DaysFromCivil(CivilDate(2023, 1, 1)) == 19358 && Weekday(19358) == 0
    ensures DaysFromCivil(CivilDate(2024, 2, 25)) == 19778
    ensures DaysFromCivil(CivilDate(2024, 3, 1)) == 19783 && Weekday(19783) == 5
    ensures DaysFromCivil(CivilDate(2024, 3, 2)) == 19784
    ensures DaysFromCivil(CivilDate(2024, 3, 10)) == 19792
    ensures DaysFromCivil(CivilDate(2024, 3, 13)) == 19795 && Weekday(19795) == 3
    ensures DaysFromCivil(CivilDate(2024, 3, 16)) == 19798
    ensures DaysFromCivil(CivilDate(2024, 12, 29)) == 20086
    ensures DaysFromCivil(CivilDate(2024, 12, 31)) == 20088 && Weekday(20088) == 2
    ensures DaysFromCivil(CivilDate(2025, 1, 4)) == 20092
    ensures DaysFromCivil(CivilDate(2025, 3, 1)) == 20148 && Weekday(20148) == 6
  {
    MarchFirsts();
    hide MarchFirst;
  }

  /** Day numbers of the two-digit-year example. */
  lemma TwoDigitYearDays()
    ensures DaysFromCivil(CivilDate(50, 6, 15)) == -701100
    ensures DaysFromCivil(CivilDate(1950, 6, 1)) == -7154
    ensures DaysFromCivil(CivilDate(1950, 6, 15)) == -7140
  {
    MarchFirstOf(50, 0, 50);
    MarchFirstOf(1950, 4, 350);
    assert YearStart(50) == 18262 && YearStart(350) == 127834;
    hide MarchFirst;
  }
}
