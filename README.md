# Calendar date utilities and the `useCalendar` state, in Dafny

This project models the logic of a React calendar widget: the date
utilities in `date.utils.ts` and the state hook in `useCalendar.ts`.

The date utilities have these parts:

- Comparisons: same day and same month.
- The month grid and the week grid.
- The filter that picks the events shown on one day.
- Navigation by one month or one week.
- The header title and the weekday labels.

The hook has three fields: the date that fixes the shown period, the view
mode and the selected day. It has five actions that update them.

## How dates are modelled

A JavaScript `Date` is a `JsDate.DateTime`. That is a day number, counted
in days from 1970-01-01, plus the seconds since local midnight. There is one
local time zone, with no daylight-saving shifts and no milliseconds.

- Module `Civil` converts day numbers to proleptic-Gregorian dates and back.
  It uses the 400-year-era method. It proves that both round trips are the
  identity, so a day number and a calendar date say the same thing.
- The weekday is `(day + 4) mod 7`, with Sunday = 0.
- `JsDate` gives the getters (`getFullYear`, `getMonth`, `getDate`, `getDay`).
- `JsDate` also gives the `new Date(y, m, d, h, min, s)` constructor. Like
  the ECMAScript Date constructor, it first reads a year from 0 to 99 as
  1900 + y. It then normalises month-index overflow and day overflow the
  way ECMAScript's MakeDay does it. The date-fns setters use MakeDay
  without the year rule.
- `DateFns` writes out what the date-fns calls do with the default locale,
  where weeks start on Sunday. The calls are `startOfWeek`, `endOfWeek`,
  `startOfMonth`, `addDays`, `addWeeks`, `subWeeks`, `addMonths`,
  `subMonths`, `isSameDay`, `isSameMonth` and `eachDayOfInterval`.
  - `addMonths` works like the library: it does nothing for 0 months and
    finds the target month's last day through day 0 of the month after it.
  - `eachDayOfInterval` counts both ends.
- `DateFormat` writes out the en-US `format` tokens the calendar uses:
  `MMMM`, `MMM`, `eee`, `do` and `yyyy`.

## Model

| member | source | states |
|---|---|---|
| DateUtils.IsSameDay | date.utils.ts:21-23 | delegates to date-fns; specified by IsSameDayIff |
| DateUtils.IsSameDayIff | date.utils.ts:21-23 | two instants are on the same day iff they have the same day number, iff they have the same civil date; time of day is ignored |
| DateUtils.IsSameMonth | date.utils.ts:28-30 | delegates to date-fns; specified by IsSameMonthIff |
| DateUtils.IsSameMonthIff | date.utils.ts:28-30 | two instants are in the same month iff their months start on the same day |
| DateUtils.GetMonthGrid | date.utils.ts:36-47 | the grid as written; specified by MonthGridShape and MonthGridCoversMonth |
| DateUtils.MonthGridShape | date.utils.ts:36-47 | the grid as written is 36 consecutive midnights and its first cell is the Sunday on or before the 1st; the 1st is in the grid and the last cell is a Sunday, not the 42 cells ending on a Saturday that the doc comment promises |
| DateUtils.MonthGridCoversMonth | date.utils.ts:36-47 | a day of the month is in the grid iff it is not the 31st of a month whose 1st is a Saturday |
| DateUtils.MonthGridMissesMarch31 | date.utils.ts:36-47 | for any day of March 2025, the grid lacks March 31st, a day of that month |
| DateUtils.GetMonthGridSixWeeks | date.utils.ts:32-35 | the grid the doc comment describes; specified by SixWeekGridShape and SixWeekGridCoversMonth |
| DateUtils.SixWeekGridShape | date.utils.ts:32-35 | the grid the doc comment describes is 42 consecutive midnights from the Sunday on or before the 1st to a Saturday |
| DateUtils.SixWeekGridCoversMonth | date.utils.ts:32-35 | that grid holds every day of the month |
| DateUtils.GetWeekDays | date.utils.ts:52-56 | the week's days; specified by WeekDaysShape |
| DateUtils.WeekDaysShape | date.utils.ts:52-56 | the week is 7 consecutive midnights; index i has weekday i, from Sunday to Saturday; the given date's day is at the index of its weekday, so it is centred, as the doc comment at line 50 says, only on a Wednesday |
| DateUtils.StartOfDay | date.utils.ts:79 | the local helper; specified by DayBounds |
| DateUtils.EndOfDay | date.utils.ts:80 | the local helper; specified by DayBounds |
| DateUtils.HelperDay | date.utils.ts:79-80 | the day the helpers land on; specified by HelperDayCivil |
| DateUtils.HelperDayCivil | date.utils.ts:79-80 | in years 0 to 99 the helpers land on the same month and day of year 1900 + y; February 29th of year 0 becomes March 1st 1900 |
| DateUtils.DayBounds | date.utils.ts:79-80 | the helpers give midnight and 23:59:59 of HelperDay of the date; outside years 0 to 99 that is the date's own day |
| DateUtils.OccursOn | date.utils.ts:62-75 | the filter callback; specified by OccursOnIff |
| DateUtils.OccursOnIff | date.utils.ts:62-75 | the filter keeps an event on a day iff HelperDay of its start <= HelperDay of the day <= HelperDay of its end, whatever the times of day; this is the plain day range only outside years 0 to 99 (OccursOnDayRange) |
| DateUtils.OccursOnDayRange | date.utils.ts:62-75 | when none of the three dates is in years 0 to 99, the filter keeps an event on a day iff its start day <= that day <= its end day |
| DateUtils.TwoDigitYearEventShown | date.utils.ts:79-80 | an event on 0050-06-15 is kept for the day 1950-06-15, which is after the event's end |
| DateUtils.OccursOnByDay | date.utils.ts:62-75 | the callback with date-fns `startOfDay`/`endOfDay` in place of the local helpers; specified by OccursOnByDayIff |
| DateUtils.OccursOnByDayIff | date.utils.ts:62-75 | with date-fns `startOfDay`/`endOfDay` as the helpers, an event is kept on a day iff start day <= day <= end day, in every year |
| DateUtils.TwoDigitYearDays | date.utils.ts:79-80 | day numbers of the two-digit-year example |
| DateUtils.GetEventsForDay | date.utils.ts:61-76 | `events.filter` with OccursOn; specified by the next five rows |
| DateUtils.EventsForDayInOrder | date.utils.ts:61-76 | the result is a subsequence of the events: order is kept |
| DateUtils.EventsForDayCount | date.utils.ts:61-76 | each event on the day keeps all its copies; every other event keeps none |
| DateUtils.EventsForDayMembers | date.utils.ts:61-76 | an event is returned iff it is in the list and on the day |
| DateUtils.GetEventsForDayAppend | date.utils.ts:61-76 | the filter distributes over concatenation of event lists |
| DateUtils.InvertedEventNeverShown | date.utils.ts:69-74 | an event whose end day is before its start day, neither in years 0 to 99, is returned for no day |
| DateUtils.EventShownOnEveryDayOfSpan | date.utils.ts:69-74 | an event is returned on every day from its start day to its end day, both included, when none of the three is in years 0 to 99 |
| DateUtils.GoToNext | date.utils.ts:83-86 | specified by WeekNavigation and MonthNext |
| DateUtils.GoToPrevious | date.utils.ts:88-91 | specified by WeekNavigation and MonthPrevious |
| DateUtils.WeekNavigation | date.utils.ts:83-91 | in week view next and previous move exactly +7 and -7 days and keep the time of day |
| DateUtils.WeekNavigationInverse | date.utils.ts:83-91 | in week view next and previous undo each other, in both orders |
| DateUtils.MonthNext | date.utils.ts:83-86 | in month view next lands in the following month (December rolls over to January of the next year), on the same day clamped to that month's length, at the same time |
| DateUtils.MonthPrevious | date.utils.ts:88-91 | in month view previous lands in the preceding month (January rolls back to December of the year before), clamped the same way |
| DateUtils.MonthBackAndForth | date.utils.ts:83-91 | in month view, previous then next returns the same instant iff the day of the month exists in the previous month |
| DateUtils.MonthForthAndBack | date.utils.ts:83-91 | in month view, next then previous returns the same instant iff the day of the month exists in the next month |
| DateUtils.FormatHeaderDate | date.utils.ts:93-107 | specified by WeekHeader and the header examples |
| DateUtils.WeekHeader | date.utils.ts:97-106 | the week header names the Sunday's month and day and the Saturday's day; it names the Saturday's month only when that month differs; the year is always the Saturday's |
| DateUtils.MonthHeaderExample | date.utils.ts:94-96 | the month header of any day of March 2024 is "March 2024" |
| DateUtils.WeekHeaderAcrossMonthsExample | date.utils.ts:97-106 | the week of 2024-03-01 has the header "Feb 25th - Mar 2nd, 2024" |
| DateUtils.WeekHeaderAcrossYearsExample | date.utils.ts:97-106 | the week of 2024-12-31 has the header "Dec 29th - Jan 4th, 2025", with the Saturday's year |
| DateUtils.WeekHeaderWithinMonthExample | date.utils.ts:97-106 | the week of 2024-03-13 has the header "Mar 10th - 16th, 2024" |
| DateUtils.GetDayNames | date.utils.ts:109-116 | specified by DayNamesFromSunday |
| DateUtils.DayNamesFromSunday | date.utils.ts:109-116 | there are 7 labels; label i names weekday i; they are "Sun" to "Sat" |
| DateUtils.ExampleDays | date.utils.ts:111 | day numbers and weekdays of the dates in the examples; 2023-01-01 is a Sunday |
| DateFormat.MonthAbbrevInjective | date.utils.ts:100-103 | two months have the same `MMM` abbreviation iff they are the same month, so the header's string comparison is a month comparison |
| DateFormat.OrdinalExamples | date.utils.ts:104-106 | `do` gives "2nd", "4th", "10th", "16th", "25th" and "29th" |
| DateFormat.YearTokenExamples | date.utils.ts:104-106 | `yyyy` gives "2024" and "2025" |
| DateFormat.Digits | date.utils.ts:104-106 | the string's digits spell n in decimal, with no leading zero unless n is 0, and a single digit exactly for numbers below 10 |
| DateFormat.Zeros | date.utils.ts:95 | k zeros, spelling 0 |
| DateFormat.LeadingZerosValue | date.utils.ts:95 | leading zeros do not change the number a string spells |
| DateFormat.AddLeadingZeros | date.utils.ts:95 | digits that spell n, padded to at least `width` characters: the length is the larger of `width` and n's digit count |
| DateFormat.EraYear | date.utils.ts:95 | the year `yyyy` prints: the year itself from 1 on, 1 - y for year 0 and before, never below 1; YearToken and YearTokenExamples state the token |
| DateFormat.YearToken | date.utils.ts:95 | `yyyy` spells the era year in at least four digits, and is exactly its decimal notation from year 1000 on |
| DateFormat.OrdinalSuffix | date.utils.ts:104-106 | "st", "nd", "rd" for a last digit 1, 2, 3 except 11, 12, 13 modulo 100; "th" for a last digit 0 or 4 to 9 and for 11 to 13 modulo 100 |
| DateFormat.OrdinalSuffixExamples | date.utils.ts:104-106 | 1st, 2nd, 3rd, 11th, 12th, 13th, 21st, 22nd, 23rd, 101st, 111th, 112th |
| DateFormat.Ordinal | date.utils.ts:104-106 | `do`: Digits followed by OrdinalSuffix, both specified above |
| DateFormat.MonthName | date.utils.ts:95 | `MMMM`, the English month names; MonthHeaderExample uses it |
| DateFormat.MonthAbbrev | date.utils.ts:100-101 | `MMM`; specified by MonthAbbrevInjective and MonthAbbrevExamples |
| DateFormat.MonthAbbrevExamples | date.utils.ts:100-101 | "Jan", "Feb", "Mar" and "Dec" |
| DateFormat.WeekdayAbbrev | date.utils.ts:111 | `eee`; specified by DayNamesFromSunday |
| DateFns.StartOfWeek | date.utils.ts:41 | midnight of a Sunday, at most 6 days back |
| DateFns.EndOfWeek | date.utils.ts:54 | 23:59:59 of a Saturday, at most 6 days on, six days after the week's start |
| DateFns.StartOfMonth | date.utils.ts:37 | midnight of the 1st of the same month and year |
| DateFns.AddDays | date.utils.ts:44 | the day number moves by n and the time of day is kept |
| DateFns.AddWeeks | date.utils.ts:44 | the day number moves by 7n and the time of day is kept |
| DateFns.SubMonths | date.utils.ts:89 | AddMonths by -n; MonthPrevious states its effect |
| DateFns.SubWeeks | date.utils.ts:90 | the day number moves back by 7n and the time of day is kept |
| DateFns.AddMonths | date.utils.ts:84 | the civil date n months on, with the day clamped to the target month's length; the time of day is kept |
| DateFns.EachDayOfInterval | date.utils.ts:46 | one midnight per day from the start's day to the end's day, both included |
| DateFns.StartOfDay | date.utils.ts:22 | midnight of the same day, as `isSameDay` compares them |
| DateFns.IsSameDay | date.utils.ts:22 | equal start-of-day instants; specified by IsSameDayIff |
| DateFns.IsSameDayIff | date.utils.ts:22 | same start of day iff same day number |
| DateFns.EndOfDay | date.utils.ts:80 | date-fns `endOfDay`, which the local helper stands in for: 23:59:59 of the same day; OccursOnByDayIff uses it |
| DateFns.IsSameMonth | date.utils.ts:29 | same full year and month index; DateUtils.IsSameMonthIff states its meaning |
| JsDate.ConstructorYear | date.utils.ts:79-80 | the Date constructor reads a year from 0 to 99 as 1900 + y and keeps every other year; HelperDayCivil states the effect |
| JsDate.NewDate | date.utils.ts:79-80 | `new Date(y, mi, d, h, min, s)`: MakeDay of ConstructorYear(y); specified, through the local helpers, by DayBounds and HelperDayCivil |
| JsDate.MakeDay | date.utils.ts:37-44 | ECMAScript MakeDay, as the setters under `startOfMonth`, `startOfWeek` and `addWeeks` use it; specified by MakeDayCivil and MakeDayShift |
| JsDate.MakeDayShift | date.utils.ts:41-44 | MakeDay, as the setter `setDate(getDate() + n)` uses it in `addDays` (reached through `startOfWeek` and `addWeeks`), moves the day number by n across month and year boundaries |
| JsDate.FullYear | date.utils.ts:79-80 | `getFullYear()`: the civil year of the day number; HelperDayCivil and MakeDayShift state what rebuilding from it gives |
| JsDate.MonthIndex | date.utils.ts:79-80 | `getMonth()`: the civil month minus one, from 0 to 11; used with FullYear by HelperDayCivil and MakeDayShift |
| JsDate.DayOfMonth | date.utils.ts:79-80 | `getDate()`: the civil day of the month, from 1 to 31; used with FullYear by HelperDayCivil and MakeDayShift |
| JsDate.DayOfWeek | date.utils.ts:41 | `getDay()`, as `startOfWeek` reads it: from 0 (Sunday) to 6; StartOfWeek and WeekDaysShape state its meaning |
| JsDate.Timestamp | date.utils.ts:72-73 | the value the `<=`/`>=` comparisons of two Dates compare; specified by TimestampOrder |
| JsDate.TimestampOrder | date.utils.ts:72-73 | one Date is at or before another iff its day is earlier, or it is the same day and its time of day is not later |
| JsDate.MakeDayCivil | date.utils.ts:37 | MakeDay, as the setter `setDate` in `startOfMonth` uses it, with a day the normalised month has, is that civil date; the constructor applies ConstructorYear first |
| Civil.DaysFromCivilFromDays | date.utils.ts:79-80 | the day number of a day number's civil date is that day number |
| Civil.CivilFromDaysFromCivil | date.utils.ts:79-80 | the civil date of a valid civil date's day number is that date |
| Civil.CivilFromDays | date.utils.ts:79-80 | every day number has a valid civil date |
| Civil.MonthsAdjacent | date.utils.ts:84 | the day after a month's last day is the 1st of the next month |
| UseCalendar.CalendarState.constructor | useCalendar.ts:12-17 | the initial state is the given date and view, with nothing selected |
| UseCalendar.CalendarState.GoToNextPeriod | useCalendar.ts:19-24 | the current date becomes `goToNext` of the date in the current view; view and selection are unchanged |
| UseCalendar.CalendarState.GoToPreviousPeriod | useCalendar.ts:26-31 | the current date becomes `goToPrevious` of it; view and selection are unchanged |
| UseCalendar.CalendarState.GoToToday | useCalendar.ts:33-38 | the current date becomes the clock reading given; nothing else changes |
| UseCalendar.CalendarState.SetView | useCalendar.ts:40-45 | only the view changes |
| UseCalendar.CalendarState.SetSelectedDate | useCalendar.ts:47-52 | the selection becomes the toggle of the old selection by the date; current date and view are unchanged |
| UseCalendar.Toggled | useCalendar.ts:50 | with a selection, the result is none iff the date is on the selected day and is the date otherwise; with no selection, the result is none iff the date is on the day of `new Date(0)` |
| UseCalendar.WeekForwardAndBack | useCalendar.ts:19-31 | in week view, next then previous restores the current date, view and selection |
| UseCalendar.WeekViewAndBack | useCalendar.ts:40-45 | switching to week view and back to month keeps current date and selection |
| UseCalendar.FreshWeekRoundTrip | useCalendar.ts:12-31 | a fresh calendar in week view shows its initial date again after next then previous |
| UseCalendar.SelectSentinelDay | useCalendar.ts:50 | from a fresh state, a click on the day of `new Date(0)` selects nothing |
| UseCalendar.SelectTwice | useCalendar.ts:47-52 | from a fresh state, two clicks on one day leave nothing selected, and the date and view stay the initial ones |
| UseCalendar.SelectThenOther | useCalendar.ts:47-52 | from a fresh state, a click on one day then on another day selects the second |

## Left out

- Time zones, daylight-saving time and milliseconds are not modelled. A
  date is local civil time to the second, and no day is 23 or 25 hours long.
- `endOfWeek` returns 23:59:59.999 in the library. The model uses 23:59:59
  because it has no milliseconds. Only the day is ever used.
- `new Date(0)` is modelled as local midnight of 1970-01-01. Away from UTC
  it is another local time, and possibly the day before.
- Locales: only the default en-US names and ordinals are modelled.
  `getDayNames` ignores its `locale` argument.
- `format` is modelled only for the five tokens the calendar uses.
- `endOfMonth` at date.utils.ts:38 is not modelled. It is computed and never used.
- InvertedEventNeverShown: does not promise anything when the start or the end is in years 0 to 99. There the source can show an inverted event: start 0150-01-01 and end 0050-01-01 is shown on 0150-01-01, because the end becomes 1950-01-01.
- EventShownOnEveryDayOfSpan: does not promise anything when one of the three dates is in years 0 to 99. There the source can miss a day of the span: an event from 0099-12-31 to 0100-01-01 is not shown on 0100-01-01.
- `eachDayOfInterval` with a start after its end is not modelled. The
  library throws in that case, and here it is a precondition. No caller
  in the core can reach it: every interval the core builds starts on or
  before its end.
- The clock (`new Date()` in `goToToday` and as the default `initialDate`)
  is a parameter. The default arguments of `useCalendar` are the caller's
  to supply.
- React machinery is not modelled: `useState`, `useCallback`, `useMemo`
  and re-rendering. The hook is a class that updates its fields in place,
  one method per action.
- `CalendarNavigation.tsx` is not part of this model. It only renders
  buttons that call the actions and `formatHeaderDate`.
- The event add, update and delete callbacks in `CalendarView.types.ts`
  are not part of this model. They belong to an outside store. Only the
  event fields the logic reads are modelled: id, start and end.
- Years are unbounded integers. JavaScript's limit on the Date range is
  not modelled.

## Findings

| source | as written | input that shows it | evidently intended | confidence | as-written member | corrected member |
|---|---|---|---|---|---|---|
| date.utils.ts:33-46 | the grid is `eachDayOfInterval(start, addWeeks(start, 5))`, inclusive: 36 days ending on a Sunday | any date | 42 cells, from the Sunday of the first week to the Saturday of the sixth week | not executed | DateUtils.MonthGridShape | DateUtils.SixWeekGridShape |
| date.utils.ts:79-80 | the helpers rebuild dates with `new Date(getFullYear(), getMonth(), getDate())`, and the constructor reads a year from 0 to 99 as 1900 + y | an event on 0050-06-15, checked against 1950-06-15 | the helpers keep the date's own day, as date-fns `startOfDay`/`endOfDay` do | not executed | DateUtils.TwoDigitYearEventShown | DateUtils.OccursOnByDayIff |
| date.utils.ts:41-46 | a 31-day month whose 1st is a Saturday loses its 31st, which is the 37th cell | any day of March 2025 (March 1st 2025 is a Saturday) | every day of the month is in the grid | not executed | DateUtils.MonthGridMissesMarch31 | DateUtils.SixWeekGridCoversMonth |
