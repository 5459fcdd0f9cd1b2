/** Calendar arithmetic on whole days (the part of date-fns the program relies on).
    A day is an integer; day 0 is Thursday 1970-01-01 in the proleptic Gregorian
    calendar, and weeks start on Sunday. */
module Dates {

  predicate IsLeapYear(y: int) {
    (y % 4 == 0 && y % 100 != 0) || y % 400 == 0
  }

  function DaysInYear(y: int): nat {
    if IsLeapYear(y) then 366 else 365
  }

  /** The length of month `m` in a leap year or a common one. */
  function DaysInMonth(leap: bool, m: int): (n: nat)
    requires 1 <= m <= 12
    ensures 28 <= n <= 31
  {
    if m == 2 then (if leap then 29 else 28)
    else if m == 4 || m == 6 || m == 9 || m == 11 then 30
    else 31
  }

  /** Days of the year before the first of month `m` (month 13 stands for the next year). */
  function DaysBefore(leap: bool, m: int): (n: nat)
    requires 1 <= m <= 13
  {
    (if m == 1 then 0 else if m == 2 then 31 else if m == 3 then 59 else if m == 4 then 90
     else if m == 5 then 120 else if m == 6 then 151 else if m == 7 then 181 else if m == 8 then 212
     else if m == 9 then 243 else if m == 10 then 273 else if m == 11 then 304 else if m == 12 then 334
     else 365)
    + (if leap && m > 2 then 1 else 0)
  }

  /** Each month starts where the one before it ends. */
  lemma {:induction false} MonthFollows(leap: bool, m: int)
    requires 1 <= m <= 12
    ensures DaysBefore(leap, m + 1) == DaysBefore(leap, m) + DaysInMonth(leap, m)
  {
  }

  /** The year holding the day `offset` days after January 1 of `y`, and that day's
      zero-based position in its year. */
  function YearOf(y: int, offset: int): (r: (int, nat))
    ensures r.1 < DaysInYear(r.0)
    decreases if offset < 0 then 366 - offset else offset
  {
    if offset < 0 then YearOf(y - 1, offset + DaysInYear(y - 1))
    else if offset < DaysInYear(y) then (y, offset)
    else YearOf(y + 1, offset - DaysInYear(y))
  }

  /** A month of a year and a day of that month. */
  datatype MonthDay = MonthDay(month: int, day: int)

  /** The month holding the zero-based day `ord` of a year. */
  function MonthNumber(leap: bool, ord: nat): (m: int)
    requires ord < if leap then 366 else 365
    ensures 1 <= m <= 12
  {
    var l := if leap then 1 else 0;
    if ord < 31 then 1 else if ord < 59 + l then 2 else if ord < 90 + l then 3
    else if ord < 120 + l then 4 else if ord < 151 + l then 5 else if ord < 181 + l then 6
    else if ord < 212 + l then 7 else if ord < 243 + l then 8 else if ord < 273 + l then 9
    else if ord < 304 + l then 10 else if ord < 334 + l then 11 else 12
  }

  /** The month found is the one whose first day is at or before `ord` and whose successor's
      first day is after it. */
  lemma {:induction false} MonthNumberBounds(leap: bool, ord: nat)
    requires ord < if leap then 366 else 365
    ensures DaysBefore(leap, MonthNumber(leap, ord)) <= ord < DaysBefore(leap, MonthNumber(leap, ord) + 1)
  {
  }

  /** Month and day of month of the zero-based day `ord` of a year. */
  function MonthOf(leap: bool, ord: nat): (r: MonthDay)
    requires ord < if leap then 366 else 365
    ensures 1 <= r.month <= 12 && 1 <= r.day <= DaysInMonth(leap, r.month)
  {
    var m := MonthNumber(leap, ord);
    MonthNumberBounds(leap, ord);
    MonthFollows(leap, m);
    MonthDay(m, ord - DaysBefore(leap, m) + 1)
  }

  datatype CivilDate = CivilDate(year: int, month: int, day: int)

  function ToCivil(d: int): (c: CivilDate)
    ensures 1 <= c.month <= 12 && 1 <= c.day <= DaysInMonth(IsLeapYear(c.year), c.month)
  {
    var (y, ord) := YearOf(1970, d);
    var md := MonthOf(IsLeapYear(y), ord);
    CivilDate(y, md.month, md.day)
  }

  /** Days from 1970-01-01 to January 1 of year `y`. */
  function YearStart(y: int): int
    decreases if y >= 1970 then y - 1970 else 1970 - y
  {
    if y == 1970 then 0
    else if y > 1970 then YearStart(y - 1) + DaysInYear(y - 1)
    else YearStart(y + 1) - DaysInYear(y)
  }

  lemma {:induction false} YearStartNext(y: int)
    ensures YearStart(y + 1) == YearStart(y) + DaysInYear(y)
  {
  }

  /** `YearOf` moves whole years: the day it finds is the day it was given. */
  lemma {:induction false} YearOfKeepsDay(y: int, offset: int)
    ensures YearStart(YearOf(y, offset).0) + YearOf(y, offset).1 == YearStart(y) + offset
    decreases if offset < 0 then 366 - offset else offset
  {
    if offset < 0 {
      YearOfKeepsDay(y - 1, offset + DaysInYear(y - 1));
      YearStartNext(y - 1);
    } else if offset >= DaysInYear(y) {
      YearOfKeepsDay(y + 1, offset - DaysInYear(y));
      YearStartNext(y);
    }
  }

  /** A later year starts after every day of an earlier one. */
  lemma {:induction false} YearStartGrows(y1: int, y2: int)
    requires y1 < y2
    ensures YearStart(y1) + DaysInYear(y1) <= YearStart(y2)
    decreases y2 - y1
  {
    YearStartNext(y2 - 1);
    if y1 < y2 - 1 {
      YearStartGrows(y1, y2 - 1);
    }
  }

  predicate ValidCivil(c: CivilDate) {
    1 <= c.month <= 12 && 1 <= c.day <= DaysInMonth(IsLeapYear(c.year), c.month)
  }

  /** Calendar order: by year, then month, then day of month. */
  predicate CivilLess(a: CivilDate, b: CivilDate) {
    a.year < b.year
    || (a.year == b.year && (a.month < b.month || (a.month == b.month && a.day < b.day)))
  }

  /** The day a calendar date names. */
  function DayNumber(c: CivilDate): int
    requires 1 <= c.month <= 12
  {
    YearStart(c.year) + DaysBefore(IsLeapYear(c.year), c.month) + c.day - 1
  }

  /** `DayNumber` undoes `ToCivil`. */
  lemma {:induction false} DayNumberOfToCivil(d: int)
    ensures DayNumber(ToCivil(d)) == d
  {
    YearOfKeepsDay(1970, d);
  }

  lemma {:induction false} DaysBeforeGrows(leap: bool, a: int, b: int)
    requires 1 <= a <= b <= 13
    ensures DaysBefore(leap, a) <= DaysBefore(leap, b)
  {
  }

  /** A valid date falls inside its own year. */
  lemma {:induction false} DayInYear(c: CivilDate)
    requires ValidCivil(c)
    ensures DaysBefore(IsLeapYear(c.year), c.month) + c.day - 1 < DaysInYear(c.year)
  {
    MonthFollows(IsLeapYear(c.year), c.month);
    DaysBeforeGrows(IsLeapYear(c.year), c.month + 1, 13);
  }

  /** Calendar order of valid dates is the order of the days they name. */
  lemma {:induction false} DayNumberGrows(a: CivilDate, b: CivilDate)
    requires ValidCivil(a) && ValidCivil(b) && CivilLess(a, b)
    ensures DayNumber(a) < DayNumber(b)
  {
    DayInYear(a);
    if a.year < b.year {
      YearStartGrows(a.year, b.year);
    } else if a.month < b.month {
      MonthFollows(IsLeapYear(a.year), a.month);
      DaysBeforeGrows(IsLeapYear(a.year), a.month + 1, b.month);
    }
  }

  /** One day comes before another exactly when its calendar date does. */
  lemma {:induction false} CivilOrder(a: int, b: int)
    ensures CivilLess(ToCivil(a), ToCivil(b)) <==> a < b
  {
    var ca, cb := ToCivil(a), ToCivil(b);
    DayNumberOfToCivil(a);
    DayNumberOfToCivil(b);
    if CivilLess(ca, cb) {
      DayNumberGrows(ca, cb);
    } else if CivilLess(cb, ca) {
      DayNumberGrows(cb, ca);
    } else {
      assert ca == cb;
    }
  }

  /** 0 = Sunday, ..., 6 = Saturday. */
  function Weekday(d: int): (w: int)
    ensures 0 <= w < 7
  {
    (d + 4) % 7
  }

  /** date-fns `startOfWeek` (Sunday start): the Sunday on or before `d`. */
  function StartOfWeek(d: int): (s: int)
    ensures s <= d < s + 7 && Weekday(s) == 0
  {
    d - Weekday(d)
  }

  /** date-fns `endOfWeek`: the Saturday on or after `d`. */
  function EndOfWeek(d: int): (e: int)
    ensures e - 7 < d <= e && Weekday(e) == 6
  {
    StartOfWeek(d) + 6
  }

  /** date-fns `startOfMonth`: the first of the month of `d`. */
  function StartOfMonth(d: int): (s: int)
    ensures s <= d < s + 31
  {
    d - (ToCivil(d).day - 1)
  }

  /** date-fns `endOfMonth`: the last day of the month of `d`. */
  function EndOfMonth(d: int): (e: int)
    ensures StartOfMonth(d) + 27 <= e <= StartOfMonth(d) + 30 && d <= e
  {
    var c := ToCivil(d);
    StartOfMonth(d) + DaysInMonth(IsLeapYear(c.year), c.month) - 1
  }

  /** date-fns `isSameMonth`. */
  predicate SameMonth(a: int, b: int) {
    ToCivil(a).year == ToCivil(b).year && ToCivil(a).month == ToCivil(b).month
  }

  /** A span from a Sunday to a later Saturday covers whole weeks. */
  lemma {:induction false} WeekSpanIsWholeWeeks(a: int, b: int)
    ensures (EndOfWeek(b) - StartOfWeek(a) + 1) % 7 == 0
  {
    var s, e := StartOfWeek(a), EndOfWeek(b);
    assert (s + 4) % 7 == 0 && (e + 4) % 7 == 6;
    assert (e + 1 + 4) % 7 == 0;
    assert ((e + 1 + 4) - (s + 4)) % 7 == 0;
  }
}
