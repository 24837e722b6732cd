/** The part of the JavaScript Date object that the calendar relies on,
    in local civil time with no time zone offset and no daylight saving:
    an instant is a day number (days since 1970-01-01) and a second of that
    day.  Milliseconds are not represented. */
module JsDate {
  import opened Civil

  const SecondsPerDay: int := 86400

  type Seconds = s: int | 0 <= s < SecondsPerDay

  datatype DateTime = DateTime(day: int, secs: Seconds)

  /** `new Date(0)`: the epoch, midnight of day 0. */
  const Epoch: DateTime := DateTime(0, 0)

  /** The instant as a count of seconds, which is what the relational
      operators on two Date objects compare (`getTime`, in seconds). */
  function Timestamp(t: DateTime): int {
    t.day * SecondsPerDay + t.secs
  }

  /** Instants are ordered by day first and by second of the day second. */
  lemma TimestampOrder(a: DateTime, b: DateTime)
    ensures Timestamp(a) <= Timestamp(b) <==> a.day < b.day || (a.day == b.day && a.secs <= b.secs)
  {
    if a.day < b.day {
      assert Timestamp(a) < (a.day + 1) * SecondsPerDay <= b.day * SecondsPerDay;
    } else if a.day > b.day {
      assert Timestamp(b) < (b.day + 1) * SecondsPerDay <= a.day * SecondsPerDay;
    }
  }

  /** `getFullYear()`. */
  function FullYear(t: DateTime): int {
    CivilFromDays(t.day).year
  }

  /** `getMonth()`: the month counted from 0 (January) to 11 (December). */
  function MonthIndex(t: DateTime): (mi: int)
    ensures 0 <= mi <= 11
  {
    CivilFromDays(t.day).month - 1
  }

  /** `getDate()`: the day of the month. */
  function DayOfMonth(t: DateTime): (d: int)
    ensures 1 <= d <= 31
  {
    CivilFromDays(t.day).day
  }

  /** `getDay()`: the weekday, 0 = Sunday. */
  function DayOfWeek(t: DateTime): (w: int)
    ensures 0 <= w < 7
  {
    Weekday(t.day)
  }

  /** The year and the month (1..12) that month index `mi` of year `y`
      stands for: an index outside 0..11 moves the year. */
  function NormalYear(y: int, mi: int): int {
    y + mi / 12
  }

  function NormalMonth(mi: int): (m: int)
    ensures 1 <= m <= 12
  {
    mi % 12 + 1
  }

  /** The day number that the setters `setDate`/`setMonth`/`setFullYear`
      compute, and `new Date(y, mi, d)` once its year is read
      (`ConstructorYear`): day `d` counted from the 1st of the normalised
      month, so that a day outside the month moves the month (day 0 is the
      last day of the previous month). */
  function MakeDay(y: int, mi: int, d: int): int {
    DaysFromCivil(CivilDate(NormalYear(y, mi), NormalMonth(mi), 1)) + d - 1
  }

  /** A day that the normalised month has lands on that civil date. */
  lemma MakeDayCivil(y: int, mi: int, d: int)
    ensures var c := CivilDate(NormalYear(y, mi), NormalMonth(mi), d);
      1 <= d <= DaysInMonth(c.year, c.month) ==> CivilFromDays(MakeDay(y, mi, d)) == c
  {
    hide CivilFromDays, DaysFromCivil;
    var c := CivilDate(NormalYear(y, mi), NormalMonth(mi), d);
    if 1 <= d <= DaysInMonth(c.year, c.month) {
      RunInMonth(c.year, c.month, d);
    }
  }

  /** The year the Date constructor uses for a year argument `y`: a year
      from 0 to 99 is read as 1900 + y before the date is made.  The
      setters (`setFullYear` and the others) do not do this. */
  function ConstructorYear(y: int): int {
    if 0 <= y <= 99 then 1900 + y else y
  }

  /** `new Date(y, mi, d, h, min, s)` with the time fields in range. */
  function NewDate(y: int, mi: int, d: int, h: int, min: int, s: int): DateTime
    requires 0 <= h < 24 && 0 <= min < 60 && 0 <= s < 60
  {
    DateTime(MakeDay(ConstructorYear(y), mi, d), h * 3600 + min * 60 + s)
  }

  /** Adding whole days to the day of the month moves the instant by that
      many days, whatever month and year boundaries it crosses. */
  lemma {:induction false} MakeDayShift(t: DateTime, n: int)
    ensures MakeDay(FullYear(t), MonthIndex(t), DayOfMonth(t) + n) == t.day + n
  {
    hide CivilFromDays, DaysFromCivil;
    var c := CivilFromDays(t.day);
    InMonthRun(t.day);
    assert (c.year, c.month) == (NormalYear(FullYear(t), MonthIndex(t)), NormalMonth(MonthIndex(t)));
  }
}
