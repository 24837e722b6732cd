/** The calendar's value types: an event as the calendar reads it and the
    two view modes. */
module CalendarTypes {
  import opened JsDate

  /** `CalendarViewType`: 'month' | 'week'. */
  datatype ViewType = Month | Week

  /** The fields of `CalendarEvent` that the calendar logic reads; the
      display fields (title, description, colour, category) are carried by
      the event store and play no part in it. */
  datatype CalendarEvent = CalendarEvent(id: string, startDate: DateTime, endDate: DateTime)
}
