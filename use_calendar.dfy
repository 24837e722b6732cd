/** The `useCalendar` hook: a state cell holding the date that fixes the
    shown month or week, the view mode and the selected day, with one
    action per state update.  Each action replaces some fields of the
    previous state and copies the others. */
module UseCalendar {
  import opened JsDate
  import opened Wrappers
  import opened CalendarTypes
  import opened DateUtils

  /** The instant `new Date(0)`, compared against when nothing is selected. */
  const Sentinel: DateTime := Epoch

  /** The selection after a click on `date`: clicking the selected day again
      clears the selection, clicking any other day selects it.  With nothing
      selected the click is compared with the sentinel instead, so a click
      on the sentinel's day selects nothing. */
  function Toggled(selected: Option<DateTime>, date: DateTime): (r: Option<DateTime>)
    ensures r == None || r == Some(date)
    ensures selected.Some? ==> (r == None <==> date.day == selected.value.day)
    ensures selected.None? ==> (r == None <==> date.day == Sentinel.day)
  {
    IsSameDayIff(date, selected.GetOr(Sentinel));
    if IsSameDay(date, selected.GetOr(Sentinel)) then None else Some(date)
  }

  /** The hook's state. */
  class CalendarState {
    /** The date that determines the month or week shown. */
    var currentDate: DateTime
    var view: ViewType
    var selectedDate: Option<DateTime>

    /** The initial state: the given date and view, nothing selected.  The
        default initial date (the clock) and the default view are the
        caller's to supply. */
    constructor (initialDate: DateTime, initialView: ViewType)
      ensures currentDate == initialDate && view == initialView && selectedDate == None
    {
      currentDate := initialDate;
      view := initialView;
      selectedDate := None;
    }

    /** `goToNextPeriod`: one month or one week forward, as the view says. */
    method GoToNextPeriod()
      modifies this
      ensures currentDate == GoToNext(old(currentDate), old(view))
      ensures view == old(view) && selectedDate == old(selectedDate)
    {
      currentDate := GoToNext(currentDate, view);
    }

    /** `goToPreviousPeriod`: one month or one week back. */
    method GoToPreviousPeriod()
      modifies this
      ensures currentDate == GoToPrevious(old(currentDate), old(view))
      ensures view == old(view) && selectedDate == old(selectedDate)
    {
      currentDate := GoToPrevious(currentDate, view);
    }

    /** `goToToday`, with the clock's reading `now` passed in. */
    method GoToToday(now: DateTime)
      modifies this
      ensures currentDate == now
      ensures view == old(view) && selectedDate == old(selectedDate)
    {
      currentDate := now;
    }

    /** `setView`: only the view changes. */
    method SetView(newView: ViewType)
      modifies this
      ensures view == newView
      ensures currentDate == old(currentDate) && selectedDate == old(selectedDate)
    {
      view := newView;
    }

    /** `setSelectedDate`: the click toggle; the shown period and the view
        are kept. */
    method SetSelectedDate(date: DateTime)
      modifies this
      ensures selectedDate == Toggled(old(selectedDate), date)
      ensures currentDate == old(currentDate) && view == old(view)
    {
      selectedDate := if IsSameDay(date, selectedDate.GetOr(Sentinel)) then None else Some(date);
    }
  }

  /** In week view, going forward and then back restores the whole state. */
  method WeekForwardAndBack(cal: CalendarState)
    requires cal.view == Week
    modifies cal
    ensures cal.currentDate == old(cal.currentDate)
    ensures cal.view == Week && cal.selectedDate == old(cal.selectedDate)
  {
    cal.GoToNextPeriod();
    cal.GoToPreviousPeriod();
    WeekNavigationInverse(old(cal.currentDate));
  }

  /** Switching to week view and back to month view changes neither the
      shown date nor the selection. */
  method WeekViewAndBack(cal: CalendarState)
    modifies cal
    ensures cal.view == Month
    ensures cal.currentDate == old(cal.currentDate) && cal.selectedDate == old(cal.selectedDate)
  {
    cal.SetView(Week);
    cal.SetView(Month);
  }

  /** A fresh calendar in week view answers "next" then "previous" with the
      date it started from. */
  method FreshWeekRoundTrip(initialDate: DateTime) returns (shown: DateTime, view: ViewType)
    ensures shown == initialDate && view == Week
  {
    var cal := new CalendarState(initialDate, Week);
    WeekForwardAndBack(cal);
    shown, view := cal.currentDate, cal.view;
  }

  /** From a fresh calendar, a click on the sentinel's day selects nothing. */
  method SelectSentinelDay(initialDate: DateTime, initialView: ViewType, date: DateTime)
    returns (selected: Option<DateTime>)
    requires date.day == Sentinel.day
    ensures selected == None
  {
    var cal := new CalendarState(initialDate, initialView);
    cal.SetSelectedDate(date);
    selected := cal.selectedDate;
  }

  /** From a fresh calendar, two clicks on one day leave nothing selected,
      and the shown date and view are those it started with. */
  method SelectTwice(initialDate: DateTime, initialView: ViewType, date: DateTime)
    returns (selected: Option<DateTime>, shown: DateTime, view: ViewType)
    ensures selected == None
    ensures shown == initialDate && view == initialView
  {
    var cal := new CalendarState(initialDate, initialView);
    cal.SetSelectedDate(date);
    cal.SetSelectedDate(date);
    selected, shown, view := cal.selectedDate, cal.currentDate, cal.view;
  }

  /** From a fresh calendar, a click on one day and then on another day
      leaves the second one selected. */
  method SelectThenOther(initialDate: DateTime, initialView: ViewType, first: DateTime, second: DateTime)
    returns (selected: Option<DateTime>)
    requires first.day != second.day
    ensures selected == Some(second)
  {
    var cal := new CalendarState(initialDate, initialView);
    cal.SetSelectedDate(first);
    cal.SetSelectedDate(second);
    selected := cal.selectedDate;
  }
}
