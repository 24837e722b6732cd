/** The date-fns `format` tokens the calendar uses, for the default
    (en-US) locale: `MMMM` (wide month name), `MMM` (abbreviated month
    name), `eee` (abbreviated weekday name), `do` (day of the month as an
    English ordinal) and `yyyy` (the year of the era, at least four
    digits). */
module DateFormat {

  /** `MMMM`, for month 1..12. */
  function MonthName(m: int): string
    requires 1 <= m <= 12
  {
    ["January", "February", "March", "April", "May", "June", "July",
     "August", "September", "October", "November", "December"][m - 1]
  }

  /** `MMM`, for month 1..12. */
  function MonthAbbrev(m: int): string
    requires 1 <= m <= 12
  {
    ["Jan", "Feb", "Mar", "Apr", "May", "Jun",
     "Jul", "Aug", "Sep", "Oct", "Nov", "Dec"][m - 1]
  }

  /** Different months have different abbreviations. */
  lemma MonthAbbrevInjective(m1: int, m2: int)
    requires 1 <= m1 <= 12 && 1 <= m2 <= 12
    ensures MonthAbbrev(m1) == MonthAbbrev(m2) <==> m1 == m2
  {
  }

  /** `eee`, for weekday 0 (Sunday) .. 6 (Saturday). */
  function WeekdayAbbrev(w: int): string
    requires 0 <= w < 7
  {
    ["Sun", "Mon", "Tue", "Wed", "Thu", "Fri", "Sat"][w]
  }

  predicate IsDigit(ch: char) {
    '0' <= ch <= '9'
  }

  /** The value of a decimal digit. */
  function DigitValue(ch: char): int {
    ch as int - '0' as int
  }

  /** The number a string of decimal digits spells, most significant digit
      first; the empty string spells 0. */
  function DecimalValue(s: string): int {
    if s == [] then 0 else 10 * DecimalValue(s[..|s| - 1]) + DigitValue(s[|s| - 1])
  }

  function DigitChar(d: int): (ch: char)
    requires 0 <= d < 10
    ensures IsDigit(ch) && DigitValue(ch) == d
  {
    ('0' as int + d) as char
  }

  /** Decimal notation of a natural number: the digits spell `n`, with no
      leading zero unless `n` is 0 itself. */
  function Digits(n: nat): (s: string)
    ensures 1 <= |s|
    ensures forall i :: 0 <= i < |s| ==> IsDigit(s[i])
    ensures DecimalValue(s) == n
    ensures n > 0 ==> s[0] != '0'
    ensures n < 10 <==> |s| == 1
  {
    if n < 10 then [DigitChar(n)]
    else
      var d := Digits(n / 10);
      var s := d + [DigitChar(n % 10)];
      assert s[..|s| - 1] == d;
      s
  }

  /** A number of 1000 or more has at least four digits. */
  lemma DigitsOfFourDigitNumber(n: nat)
    ensures n >= 1000 ==> |Digits(n)| >= 4
  {
    hide DecimalValue;
    if n >= 1000 {
      var a := n / 10;
      var b := a / 10;
      assert b >= 10;
      assert |Digits(b)| >= 2;
      assert |Digits(a)| == |Digits(b)| + 1;
      assert |Digits(n)| == |Digits(a)| + 1;
    }
  }

  function Zeros(k: nat): (s: string)
    ensures |s| == k && forall i :: 0 <= i < k ==> s[i] == '0'
    ensures DecimalValue(s) == 0
  {
    if k == 0 then ""
    else
      var z := Zeros(k - 1);
      assert (z + "0")[..k - 1] == z;
      z + "0"
  }

  /** Leading zeros do not change the number a string spells. */
  lemma {:induction false} LeadingZerosValue(k: nat, d: string)
    ensures DecimalValue(Zeros(k) + d) == DecimalValue(d)
    decreases |d|
  {
    var s := Zeros(k) + d;
    if d == [] {
      assert s == Zeros(k);
    } else {
      assert s[..|s| - 1] == Zeros(k) + d[..|d| - 1];
      assert s[|s| - 1] == d[|d| - 1];
      LeadingZerosValue(k, d[..|d| - 1]);
    }
  }

  /** date-fns `addLeadingZeros` for a non-negative number: decimal digits
      spelling `n`, padded with zeros to at least `width` characters. */
  function AddLeadingZeros(n: nat, width: nat): (s: string)
    ensures DecimalValue(s) == n
    ensures |s| == if |Digits(n)| < width then width else |Digits(n)|
    ensures forall i :: 0 <= i < |s| ==> IsDigit(s[i])
  {
    var d := Digits(n);
    if |d| < width then
      LeadingZerosValue(width - |d|, d);
      Zeros(width - |d|) + d
    else d
  }

  /** The year of the era shown by the `y` tokens: there is no year 0, so
      year 0 is 1 BC and year -1 is 2 BC. */
  function EraYear(y: int): (e: nat)
    ensures e >= 1
  {
    if y > 0 then y else 1 - y
  }

  /** `yyyy`: the year of the era in decimal, padded with zeros to four
      digits; a year of four or more digits is written as it is. */
  function YearToken(y: int): (r: string)
    ensures DecimalValue(r) == EraYear(y) && |r| >= 4
    ensures forall i :: 0 <= i < |r| ==> IsDigit(r[i])
    ensures EraYear(y) >= 1000 ==> r == Digits(EraYear(y))
  {
    DigitsOfFourDigitNumber(EraYear(y));
    AddLeadingZeros(EraYear(y), 4)
  }

  /** English ordinal suffix of the en-US `ordinalNumber`: "st", "nd", "rd"
      for numbers ending in 1, 2, 3 except 11, 12, 13 (modulo 100), "th"
      otherwise. */
  function OrdinalSuffix(n: nat): (s: string)
    ensures n % 10 == 1 && n % 100 != 11 ==> s == "st"
    ensures n % 10 == 2 && n % 100 != 12 ==> s == "nd"
    ensures n % 10 == 3 && n % 100 != 13 ==> s == "rd"
    ensures n % 10 == 0 || n % 10 >= 4 || 11 <= n % 100 <= 13 ==> s == "th"
  {
    assert n % 100 % 10 == n % 10;
    var rem100 := n % 100;
    if rem100 > 20 || rem100 < 10 then
      if rem100 % 10 == 1 then "st"
      else if rem100 % 10 == 2 then "nd"
      else if rem100 % 10 == 3 then "rd"
      else "th"
    else "th"
  }

  /** `do`. */
  function Ordinal(n: nat): string {
    Digits(n) + OrdinalSuffix(n)
  }

  /** Month abbreviations of the header examples. */
  lemma MonthAbbrevExamples()
    ensures MonthAbbrev(2) == "Feb" && MonthAbbrev(3) == "Mar"
    ensures MonthAbbrev(12) == "Dec" && MonthAbbrev(1) == "Jan"
  {
  }

  /** The suffix rule on the cases that tell it apart: the last digit
      decides, except in the teens of each hundred. */
  lemma OrdinalSuffixExamples()
    ensures OrdinalSuffix(1) == "st" && OrdinalSuffix(2) == "nd" && OrdinalSuffix(3) == "rd"
    ensures OrdinalSuffix(11) == "th" && OrdinalSuffix(12) == "th" && OrdinalSuffix(13) == "th"
    ensures OrdinalSuffix(21) == "st" && OrdinalSuffix(22) == "nd" && OrdinalSuffix(23) == "rd"
    ensures OrdinalSuffix(101) == "st" && OrdinalSuffix(111) == "th" && OrdinalSuffix(112) == "th"
  {
    hide OrdinalSuffix;
  }

  /** Ordinals of the header examples: "st", "nd", "rd" and "th" by the
      last digit, "th" in the teens. */
  lemma OrdinalExamples()
    ensures Ordinal(2) == "2nd" && Ordinal(4) == "4th"
    ensures Ordinal(10) == "10th" && Ordinal(16) == "16th"
    ensures Ordinal(25) == "25th" && Ordinal(29) == "29th"
  {
    hide OrdinalSuffix, DecimalValue;
    assert Digits(1) == "1" && Digits(2) == "2";
    assert Digits(10) == "1" + "0" && Digits(16) == "1" + "6";
    assert Digits(25) == "2" + "5" && Digits(29) == "2" + "9";
  }

  /** Years of the header examples, four digits already. */
  lemma YearTokenExamples()
    ensures YearToken(2024) == "2024" && YearToken(2025) == "2025"
  {
    hide YearToken, AddLeadingZeros, DecimalValue;
    assert Digits(20) == "2" + "0";
    assert Digits(202) == "20" + "2";
    assert Digits(2024) == "202" + "4" && Digits(2025) == "202" + "5";
  }
}
