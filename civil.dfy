/** Proleptic Gregorian calendar arithmetic: the conversion between a civil
    date (year, month 1..12, day of month) and a day number counting days
    from 1970-01-01, which is day 0.

    This is what the JavaScript Date getters (getFullYear, getMonth, getDate,
    getDay) and the setters (setDate, setFullYear) compute in local time, with
    time zones and daylight saving left out; the Date constructor computes it
    too once it has read a year from 0 to 99 as 1900 + y.  The conversion is the classic "400-year
    era" computation: a civil year is shifted so that it starts on March 1st,
    which puts the leap day at the end of the shifted year; a 400-year era
    has exactly 146097 days; day 0 of era 0 is 0000-03-01, which is day
    -719468 from the epoch. */
module Civil {

  datatype CivilDate = CivilDate(year: int, month: int, day: int)

  /** Gregorian leap-year rule. */
  predicate IsLeapYear(y: int) {
    y % 4 == 0 && (y % 100 != 0 || y % 400 == 0)
  }

  /** Number of days in month `m` (1..12) of year `y`. */
  function DaysInMonth(y: int, m: int): (n: int)
    requires 1 <= m <= 12
    ensures 28 <= n <= 31
    ensures n == 29 <==> m == 2 && IsLeapYear(y)
    ensures n == 28 <==> m == 2 && !IsLeapYear(y)
    ensures n == 30 <==> m == 4 || m == 6 || m == 9 || m == 11
  {
    if m == 2 then (if IsLeapYear(y) then 29 else 28)
    else if m == 4 || m == 6 || m == 9 || m == 11 then 30
    else 31
  }

  predicate Valid(c: CivilDate) {
    1 <= c.month <= 12 && 1 <= c.day <= DaysInMonth(c.year, c.month)
  }

  /* ---- the shifted (March-based) year ---- */

  /** Day of the shifted year on which shifted month `mp` starts
      (mp = 0 is March, mp = 11 is February). */
  function MonthStart(mp: int): int {
    (153 * mp + 2) / 5
  }

  /** Day of the 400-year era on which shifted year `yoe` (0..399) starts. */
  function YearStart(yoe: int): int {
    365 * yoe + yoe / 4 - yoe / 100
  }

  /** Length of shifted year `yoe` of an era: it ends with the February of
      civil year yoe + 1, so it has 366 days when that civil year is a leap
      year (civil year 400 of the era is one). */
  function YearLen(yoe: int): int {
    if (yoe + 1) % 4 == 0 && ((yoe + 1) % 100 != 0 || yoe == 399) then 366 else 365
  }

  /** Shifted year of the era holding day `doe` of that era. */
  function YearOfEra(doe: int): int {
    (doe - doe / 1460 + doe / 36524 - doe / 146096) / 365
  }

  /** Shifted month holding day `doy` of a shifted year. */
  function MonthOfYear(doy: int): int {
    (5 * doy + 2) / 153
  }

  function ShiftMonth(m: int): int {
    if m > 2 then m - 3 else m + 9
  }

  function UnshiftMonth(mp: int): int {
    if mp < 10 then mp + 3 else mp - 9
  }

  /* ---- the two conversions ---- */

  /** The civil year whose March opens the shifted year of `c`. */
  function MarchYear(c: CivilDate): int {
    if c.month <= 2 then c.year - 1 else c.year
  }

  /** Day number of March 1st of civil year `y`. */
  function MarchFirst(y: int): int {
    (y / 400) * 146097 + YearStart(y % 400) - 719468
  }

  /** March 1st of year `y` from the era and the year of era of `y`. */
  lemma MarchFirstOf(y: int, era: int, yoe: int)
    requires y == 400 * era + yoe && 0 <= yoe < 400
    ensures MarchFirst(y) == era * 146097 + YearStart(yoe) - 719468
  {
    hide YearStart;
    DivModUnique(y, 400, era, yoe);
  }

  /** Day number of a civil date. */
  function DaysFromCivil(c: CivilDate): int
    requires Valid(c)
  {
    MarchFirst(MarchYear(c)) + MonthStart(ShiftMonth(c.month)) + c.day - 1
  }

  /** Civil date of a day number; every day number has a valid one. */
  function CivilFromDays(z: int): (c: CivilDate)
    ensures Valid(c)
  {
    hide YearOfEra, MonthOfYear;
    var zz := z + 719468;
    var era := zz / 146097;
    var doe := zz % 146097;
    var yoe := YearOfEra(doe);
    var doy := doe - YearStart(yoe);
    var mp := MonthOfYear(doy);
    var m := UnshiftMonth(mp);
    YearOfEraBounds(doe);
    MonthOfYearBounds(doy, YearLen(yoe));
    MonthLenShift(era, yoe, m);
    CivilDate(era * 400 + yoe + (if m <= 2 then 1 else 0), m, doy - MonthStart(mp) + 1)
  }

  /** Weekday of a day number, 0 = Sunday .. 6 = Saturday; 1970-01-01 was a
      Thursday. */
  function Weekday(z: int): (w: int)
    ensures 0 <= w < 7
  {
    (z + 4) % 7
  }

  /** Moving `n` days on moves the weekday `n` places round the week. */
  lemma WeekdayAdd(z: int, n: int)
    ensures Weekday(z + n) == (Weekday(z) + n) % 7
  {
    var q := (z + 4) / 7;
    assert z + 4 == 7 * q + Weekday(z);
    assert z + n + 4 == 7 * q + (Weekday(z) + n);
  }

  /** Whole weeks leave the weekday unchanged. */
  lemma WeekdayWeeks(z: int, k: int)
    ensures Weekday(z + 7 * k) == Weekday(z)
  {
    WeekdayAdd(z, 7 * k);
    assert (Weekday(z) + 7 * k) % 7 == Weekday(z);
  }

  /* ---- arithmetic facts about the shifted year ---- */

  /** Euclidean division is determined by a quotient and a remainder in
      range. */
  lemma DivModUnique(n: int, d: int, q: int, r: int)
    requires 0 < d && n == d * q + r && 0 <= r < d
    ensures n / d == q && n % d == r
  {
    var q0 := n / d;
    var r0 := n % d;
    assert d * (q - q0) == r0 - r;
    if q0 < q {
      MulAtLeast(d, q - q0);
    } else if q < q0 {
      MulAtLeast(d, q0 - q);
    }
  }

  lemma MulAtLeast(d: int, k: int)
    requires d > 0 && k >= 1
    ensures d * k >= d
  {
  }

  /** Splits a day of an era (other than its very last day) into
      centuries, four-year cycles and a remainder. */
  lemma EraSplit(doe: int) returns (c: int, b: int, s: int)
    requires 0 <= doe < 146096
    ensures doe == 36524 * c + 1461 * b + s
    ensures 0 <= c <= 3 && 0 <= b <= 24 && 0 <= s <= 1460 && (b == 24 ==> s < 1460)
  {
    c := doe / 36524;
    var r := doe % 36524;
    b := r / 1461;
    s := r % 1461;
  }

  lemma YearOfEraNumerator(c: int, b: int, s: int)
    requires 0 <= c <= 3 && 0 <= b <= 24 && 0 <= s <= 1460 && (b == 24 ==> s < 1460)
    ensures var doe := 36524 * c + 1461 * b + s;
      doe - doe / 1460 + doe / 36524 - doe / 146096
        == 36500 * c + 1460 * b + s - (24 * c + b + s) / 1460
  {
    var doe := 36524 * c + 1461 * b + s;
    assert doe == 1460 * (25 * c + b) + (24 * c + b + s);
    assert doe / 1460 == 25 * c + b + (24 * c + b + s) / 1460;
    assert doe / 36524 == c;
  }

  lemma YearOfEraQuotient(c: int, b: int, s: int)
    requires 0 <= c <= 3 && 0 <= b <= 24 && 0 <= s <= 1460
    ensures var y4 := (s - (24 * c + b + s) / 1460) / 365;
      0 <= y4 <= 3 && (y4 < 3 ==> 365 * y4 <= s < 365 * y4 + 365) && (y4 == 3 ==> 1095 <= s)
      && (36500 * c + 1460 * b + s - (24 * c + b + s) / 1460) / 365 == 100 * c + 4 * b + y4
  {
  }

  /** The shifted year of a split day of an era. */
  lemma YearOfEraValue(c: int, b: int, s: int) returns (y4: int)
    requires 0 <= c <= 3 && 0 <= b <= 24 && 0 <= s <= 1460 && (b == 24 ==> s < 1460)
    ensures YearOfEra(36524 * c + 1461 * b + s) == 100 * c + 4 * b + y4
    ensures 0 <= y4 <= 3 && (y4 < 3 ==> 365 * y4 <= s < 365 * y4 + 365) && (y4 == 3 ==> 1095 <= s)
  {
    YearOfEraNumerator(c, b, s);
    YearOfEraQuotient(c, b, s);
    y4 := (s - (24 * c + b + s) / 1460) / 365;
  }

  /** Where shifted year `100 * c + 4 * b + y4` of an era starts. */
  lemma YearStartValue(c: int, b: int, y4: int)
    requires 0 <= c <= 3 && 0 <= b <= 24 && 0 <= y4 <= 3
    ensures YearStart(100 * c + 4 * b + y4) == 36524 * c + 1461 * b + 365 * y4
  {
    var yoe := 100 * c + 4 * b + y4;
    DivModUnique(yoe, 4, 25 * c + b, y4);
    DivModUnique(yoe, 100, c, 4 * b + y4);
  }

  /** The last shifted year of a four-year cycle is a leap year, except at
      the end of the first three centuries of the era. */
  lemma YearLenCycleEnd(c: int, b: int)
    requires 0 <= c <= 3 && 0 <= b <= 24
    ensures YearLen(100 * c + 4 * b + 3) == if b == 24 && c < 3 then 365 else 366
  {
    var a := 100 * c + 4 * b + 4;
    DivModUnique(a, 4, 25 * c + b + 1, 0);
    if b == 24 {
      DivModUnique(a, 100, c + 1, 0);
    } else {
      DivModUnique(a, 100, c, 4 * b + 4);
    }
  }

  /** The shifted year computed for a day of an era is the one that holds
      that day. */
  lemma YearOfEraBounds(doe: int)
    requires 0 <= doe < 146097
    ensures var yoe := YearOfEra(doe);
      0 <= yoe <= 399 && YearStart(yoe) <= doe < YearStart(yoe) + YearLen(yoe)
  {
    hide YearOfEra, YearStart, YearLen;
    if doe == 146096 {
      YearOfEraLastDay();
      YearStartValue(3, 24, 3);
      YearLenCycleEnd(3, 24);
    } else {
      var c, b, s := EraSplit(doe);
      var y4 := YearOfEraValue(c, b, s);
      YearStartValue(c, b, y4);
      YearLenCycleEnd(c, b);
      YearLenRange(100 * c + 4 * b + y4);
    }
  }

  /** The last day of an era belongs to its last shifted year. */
  lemma YearOfEraLastDay()
    ensures YearOfEra(146096) == 399
  {
  }

  lemma YearLenRange(yoe: int)
    ensures 365 <= YearLen(yoe) <= 366
  {
  }

  /** Consecutive shifted years of an era are adjacent. */
  lemma YearStartNext(yoe: int)
    requires 0 <= yoe < 399
    ensures YearStart(yoe + 1) == YearStart(yoe) + YearLen(yoe)
  {
    var a := yoe + 1;
    DivModUnique(yoe, 4, yoe / 4, yoe % 4);
    DivModUnique(yoe, 100, yoe / 100, yoe % 100);
    if yoe % 4 == 3 {
      DivModUnique(a, 4, yoe / 4 + 1, 0);
    } else {
      DivModUnique(a, 4, yoe / 4, yoe % 4 + 1);
    }
    if yoe % 100 == 99 {
      DivModUnique(a, 100, yoe / 100 + 1, 0);
    } else {
      DivModUnique(a, 100, yoe / 100, yoe % 100 + 1);
    }
  }

  /** The shifted years of an era are laid end to end. */
  lemma YearStartMonotonic(i: int, j: int)
    requires 0 <= i < j <= 399
    ensures YearStart(i) + YearLen(i) <= YearStart(j)
  {
    YearStartNext(i);
    assert (i + 1) / 4 <= j / 4 && (i + 1) / 100 <= j / 100;
    assert j / 100 - (i + 1) / 100 <= (j - (i + 1)) / 100 + 1;
  }

  /** Every shifted year of an era ends inside the era, the last one on
      its last day. */
  lemma YearEndWithinEra(yoe: int)
    requires 0 <= yoe <= 399
    ensures 0 <= YearStart(yoe) && YearStart(yoe) + YearLen(yoe) <= 146097
    ensures yoe == 399 ==> YearStart(yoe) + YearLen(yoe) == 146097
  {
    YearStartValue(3, 24, 3);
    YearLenCycleEnd(3, 24);
    if yoe < 399 {
      YearStartMonotonic(yoe, 399);
    }
  }

  /** A day of an era lies in exactly one shifted year. */
  lemma YearOfEraUnique(doe: int, yoe: int)
    requires 0 <= yoe <= 399 && YearStart(yoe) <= doe < YearStart(yoe) + YearLen(yoe)
    ensures YearOfEra(doe) == yoe
  {
    YearEndWithinEra(yoe);
    YearOfEraBounds(doe);
    var k := YearOfEra(doe);
    if k < yoe {
      YearStartMonotonic(k, yoe);
    } else if yoe < k {
      YearStartMonotonic(yoe, k);
    }
  }

  /** Shifted month `mp` of a shifted year of length `len` is
      `MonthStart(mp + 1) - MonthStart(mp)` days long, or what is left of
      the year for February. */
  function ShiftedMonthLen(mp: int, len: int): int {
    if mp == 11 then len - MonthStart(11) else MonthStart(mp + 1) - MonthStart(mp)
  }

  lemma MonthOfYearBounds(doy: int, len: int)
    requires 365 <= len <= 366 && 0 <= doy < len
    ensures var mp := MonthOfYear(doy);
      0 <= mp <= 11 && MonthStart(mp) <= doy < MonthStart(mp) + ShiftedMonthLen(mp, len)
  {
  }

  lemma MonthOfYearUnique(doy: int, mp: int, len: int)
    requires 365 <= len <= 366 && 0 <= mp <= 11
    requires MonthStart(mp) <= doy < MonthStart(mp) + ShiftedMonthLen(mp, len)
    ensures MonthOfYear(doy) == mp
  {
  }

  /** Each shifted month lies inside its shifted year. */
  lemma ShiftedMonthWithinYear(mp: int, len: int)
    requires 365 <= len <= 366 && 0 <= mp <= 11
    ensures 0 <= MonthStart(mp) && MonthStart(mp) + ShiftedMonthLen(mp, len) <= len
  {
  }

  /** Civil year `era * 400 + yoe + 1`, whose February ends shifted year
      `yoe`, is a leap year exactly when that shifted year has 366 days. */
  lemma LeapShift(era: int, yoe: int)
    requires 0 <= yoe <= 399
    ensures IsLeapYear(era * 400 + yoe + 1) <==> YearLen(yoe) == 366
  {
    var y := era * 400 + yoe + 1;
    var a := yoe + 1;
    DivModUnique(y, 4, era * 100 + a / 4, a % 4);
    DivModUnique(y, 100, era * 4 + a / 100, a % 100);
    if a == 400 {
      DivModUnique(y, 400, era + 1, 0);
    } else {
      DivModUnique(y, 400, era, a);
    }
  }

  /** The length of a civil month agrees with the length of the shifted
      month it becomes. */
  lemma MonthLenShift(era: int, yoe: int, m: int)
    requires 0 <= yoe <= 399 && 1 <= m <= 12
    ensures DaysInMonth(era * 400 + yoe + (if m <= 2 then 1 else 0), m)
      == ShiftedMonthLen(ShiftMonth(m), YearLen(yoe))
  {
    LeapShift(era, yoe);
  }

  /* ---- the conversions are inverse bijections ---- */

  /** Day `d` of shifted month `mp` of shifted year `yoe` of era `era`, as
      a civil date and as a day number. */
  predicate EraInRange(yoe: int, mp: int, d: int) {
    0 <= yoe <= 399 && 0 <= mp <= 11 && 1 <= d <= ShiftedMonthLen(mp, YearLen(yoe))
  }

  function EraCivil(era: int, yoe: int, mp: int, d: int): CivilDate {
    var m := UnshiftMonth(mp);
    CivilDate(era * 400 + yoe + (if m <= 2 then 1 else 0), m, d)
  }

  function EraDayNumber(era: int, yoe: int, mp: int, d: int): int {
    era * 146097 + YearStart(yoe) + MonthStart(mp) + d - 1 - 719468
  }

  /** Every day number is a day of a shifted month of an era, and
      CivilFromDays names it. */
  lemma CivilFromDaysSplit(z: int) returns (era: int, yoe: int, mp: int, d: int)
    ensures EraInRange(yoe, mp, d) && z == EraDayNumber(era, yoe, mp, d)
    ensures CivilFromDays(z) == EraCivil(era, yoe, mp, d)
  {
    hide YearOfEra, MonthOfYear;
    var zz := z + 719468;
    era := zz / 146097;
    var doe := zz % 146097;
    yoe := YearOfEra(doe);
    var doy := doe - YearStart(yoe);
    YearOfEraBounds(doe);
    MonthOfYearBounds(doy, YearLen(yoe));
    mp := MonthOfYear(doy);
    d := doy - MonthStart(mp) + 1;
  }

  /** Every valid civil date is a day of a shifted month of an era. */
  lemma CivilSplit(c: CivilDate) returns (era: int, yoe: int, mp: int, d: int)
    requires Valid(c)
    ensures EraInRange(yoe, mp, d) && c == EraCivil(era, yoe, mp, d)
  {
    var y := MarchYear(c);
    era := y / 400;
    yoe := y % 400;
    mp := ShiftMonth(c.month);
    d := c.day;
    MonthLenShift(era, yoe, c.month);
  }

  /** DaysFromCivil numbers a day of an era by its place in the era. */
  lemma DaysFromEraCivil(era: int, yoe: int, mp: int, d: int)
    requires EraInRange(yoe, mp, d)
    ensures Valid(EraCivil(era, yoe, mp, d))
    ensures DaysFromCivil(EraCivil(era, yoe, mp, d)) == EraDayNumber(era, yoe, mp, d)
  {
    var c := EraCivil(era, yoe, mp, d);
    MonthLenShift(era, yoe, c.month);
    assert ShiftMonth(c.month) == mp;
    assert MarchYear(c) == era * 400 + yoe;
    DivModUnique(MarchYear(c), 400, era, yoe);
  }

  /** CivilFromDays recovers a day of an era from its place in the era. */
  lemma CivilFromEraDayNumber(era: int, yoe: int, mp: int, d: int)
    requires EraInRange(yoe, mp, d)
    ensures CivilFromDays(EraDayNumber(era, yoe, mp, d)) == EraCivil(era, yoe, mp, d)
  {
    hide YearOfEra, MonthOfYear;
    var len := YearLen(yoe);
    var doy := MonthStart(mp) + d - 1;
    var doe := YearStart(yoe) + doy;
    YearLenRange(yoe);
    ShiftedMonthWithinYear(mp, len);
    YearEndWithinEra(yoe);
    DivModUnique(EraDayNumber(era, yoe, mp, d) + 719468, 146097, era, doe);
    YearOfEraUnique(doe, yoe);
    MonthOfYearUnique(doy, mp, len);
    hide YearStart, MonthStart, YearLen, ShiftedMonthLen, EraDayNumber;
  }

  /** Converting a day number to its civil date and back gives the same day
      number. */
  lemma {:induction false} DaysFromCivilFromDays(z: int)
    ensures DaysFromCivil(CivilFromDays(z)) == z
  {
    hide *;
    var era, yoe, mp, d := CivilFromDaysSplit(z);
    DaysFromEraCivil(era, yoe, mp, d);
  }

  /** Converting a valid civil date to its day number and back gives the
      same civil date. */
  lemma {:induction false} CivilFromDaysFromCivil(c: CivilDate)
    requires Valid(c)
    ensures CivilFromDays(DaysFromCivil(c)) == c
  {
    hide *;
    var era, yoe, mp, d := CivilSplit(c);
    DaysFromEraCivil(era, yoe, mp, d);
    CivilFromEraDayNumber(era, yoe, mp, d);
  }

  /** The days of a month are numbered consecutively from its 1st. */
  lemma DaysOfMonthConsecutive(y: int, m: int, d: int)
    requires 1 <= m <= 12 && 1 <= d <= DaysInMonth(y, m)
    ensures DaysFromCivil(CivilDate(y, m, d)) == DaysFromCivil(CivilDate(y, m, 1)) + d - 1
  {
  }

  lemma InMonthRun(z: int)
    ensures var c := CivilFromDays(z);
      z == DaysFromCivil(CivilDate(c.year, c.month, 1)) + c.day - 1
  {
    hide CivilFromDays, DaysFromCivil;
    var c := CivilFromDays(z);
    DaysFromCivilFromDays(z);
    DaysOfMonthConsecutive(c.year, c.month, c.day);
  }

  lemma RunInMonth(y: int, m: int, d: int)
    requires 1 <= m <= 12 && 1 <= d <= DaysInMonth(y, m)
    ensures var c := CivilFromDays(DaysFromCivil(CivilDate(y, m, 1)) + d - 1);
      c.year == y && c.month == m && c.day == d
  {
    hide CivilFromDays, DaysFromCivil;
    DaysOfMonthConsecutive(y, m, d);
    CivilFromDaysFromCivil(CivilDate(y, m, d));
  }

  /** The 1st of the month after month `m` of year `y`. */
  function FirstOfNextMonth(y: int, m: int): CivilDate
    requires 1 <= m <= 12
  {
    if m == 12 then CivilDate(y + 1, 1, 1) else CivilDate(y, m + 1, 1)
  }

  /** Months are laid end to end: the next month starts the day after the
      last day of this one, across the February/March and December/January
      boundaries and across 400-year eras. */
  lemma MonthsAdjacent(y: int, m: int)
    requires 1 <= m <= 12
    ensures DaysFromCivil(FirstOfNextMonth(y, m))
      == DaysFromCivil(CivilDate(y, m, DaysInMonth(y, m))) + 1
  {
    DaysOfMonthConsecutive(y, m, DaysInMonth(y, m));
    if m == 2 {
      FebruaryMarchAdjacent(y);
    } else {
      WithinShiftedYearAdjacent(y, m);
    }
  }

  lemma WithinShiftedYearAdjacent(y: int, m: int)
    requires 1 <= m <= 12 && m != 2
    ensures DaysFromCivil(FirstOfNextMonth(y, m))
      == DaysFromCivil(CivilDate(y, m, 1)) + DaysInMonth(y, m)
  {
    hide MarchFirst;
    assert MarchYear(FirstOfNextMonth(y, m)) == MarchYear(CivilDate(y, m, 1));
  }

  /** March 1st of the next year comes one shifted year after this year's. */
  lemma MarchFirstNext(x: int)
    ensures MarchFirst(x + 1) == MarchFirst(x) + YearLen(x % 400)
  {
    var era := x / 400;
    var yoe := x % 400;
    if yoe < 399 {
      DivModUnique(x + 1, 400, era, yoe + 1);
      YearStartNext(yoe);
    } else {
      DivModUnique(x + 1, 400, era + 1, 0);
      YearEndWithinEra(399);
      assert YearStart(0) == 0;
    }
  }

  lemma FebruaryMarchAdjacent(y: int)
    ensures DaysFromCivil(CivilDate(y, 3, 1)) == DaysFromCivil(CivilDate(y, 2, 1)) + DaysInMonth(y, 2)
  {
    var x := y - 1;
    MarchFirstNext(x);
    MonthLenShift(x / 400, x % 400, 2);
    assert x / 400 * 400 + x % 400 + 1 == y;
    hide MarchFirst, YearLen;
    assert ShiftedMonthLen(11, YearLen(x % 400)) == YearLen(x % 400) - 337;
  }
}
