/** Proleptic Gregorian dates as Python's `datetime.date` handles them:
    years 1 to 9999, ordinals counted from 0001-01-01 (`toordinal`), day
    arithmetic through ordinals (`date + timedelta`), and the ordering
    `<` of dates. */
module Calendar {
  import opened Results

  datatype Date = Date(year: int, month: int, day: int)

  const MinYear: int := 1
  const MaxYear: int := 9999

  predicate IsLeapYear(y: int) {
    y % 4 == 0 && (y % 100 != 0 || y % 400 == 0)
  }

  function DaysInMonth(y: int, m: int): int
    requires 1 <= m <= 12
  {
    if m == 2 then (if IsLeapYear(y) then 29 else 28)
    else if m == 4 || m == 6 || m == 9 || m == 11 then 30
    else 31
  }

  function DaysInYear(y: int): int {
    if IsLeapYear(y) then 366 else 365
  }

  predicate IsValidDate(d: Date) {
    && MinYear <= d.year <= MaxYear
    && 1 <= d.month <= 12
    && 1 <= d.day <= DaysInMonth(d.year, d.month)
  }

  /** The values a `datetime.date` can hold. */
  type CalendarDate = d: Date | IsValidDate(d) witness Date(1, 1, 1)

  const FirstDate: CalendarDate := Date(1, 1, 1)
  const LastDate: CalendarDate := Date(9999, 12, 31)

  /** Ordinal of `LastDate`, CPython's `_MAXORDINAL`. */
  const MaxOrdinal: int := 3652059

  /** Days in the years before `y` (CPython's `_days_before_year`). */
  function DaysBeforeYear(y: int): int
    requires y >= 1
  {
    var n := y - 1;
    n * 365 + n / 4 - n / 100 + n / 400
  }

  /** Days in the months of year `y` before month `m` (CPython's
      `_days_before_month`). */
  function DaysBeforeMonth(y: int, m: int): int
    requires 1 <= m <= 12
  {
    var before :=
      if m == 1 then 0 else if m == 2 then 31 else if m == 3 then 59
      else if m == 4 then 90 else if m == 5 then 120 else if m == 6 then 151
      else if m == 7 then 181 else if m == 8 then 212 else if m == 9 then 243
      else if m == 10 then 273 else if m == 11 then 304 else 334;
    before + (if m > 2 && IsLeapYear(y) then 1 else 0)
  }

  /** `date.toordinal()`: 0001-01-01 is day 1. A date's ordinal lies
      inside its own year, and every date's ordinal inside
      `1..MaxOrdinal`. */
  function Ordinal(d: CalendarDate): (o: int)
    ensures DaysBeforeYear(d.year) < o <= DaysBeforeYear(d.year) + DaysInYear(d.year)
    ensures 1 <= o <= MaxOrdinal
  {
    MonthsWithinYear(d.year, d.month);
    YearsWithinCalendar(d.year);
    DaysBeforeYear(d.year) + DaysBeforeMonth(d.year, d.month) + d.day
  }

  /** `date.__lt__`: compares year, then month, then day, which orders
      dates as their ordinals do. */
  function Before(a: CalendarDate, b: CalendarDate): (r: bool)
    ensures r <==> Ordinal(a) < Ordinal(b)
  {
    if a.year != b.year then
      if a.year < b.year then YearsDecide(a, b); true
      else YearsDecide(b, a); false
    else if a.month != b.month then
      if a.month < b.month then MonthsDecide(a, b); true
      else MonthsDecide(b, a); false
    else
      a.day < b.day
  }

  /** The months before `m` and month `m` itself fit in the year. */
  lemma MonthsWithinYear(y: int, m: int)
    requires 1 <= m <= 12
    ensures DaysBeforeMonth(y, m) + DaysInMonth(y, m) <= DaysInYear(y)
  {
    MonthStep(y, 12);
    if m < 12 {
      MonthOrder(y, m, 12);
    }
  }

  /** The years up to and including `y` fit in the calendar, and start at
      day 0. */
  lemma YearsWithinCalendar(y: int)
    requires MinYear <= y <= MaxYear
    ensures 0 <= DaysBeforeYear(y)
    ensures DaysBeforeYear(y) + DaysInYear(y) <= MaxOrdinal
  {
    if y > MinYear {
      YearOrder(MinYear, y);
    }
    if y < MaxYear {
      YearOrder(y, MaxYear);
    }
    assert DaysBeforeYear(MaxYear) == 3651694;
  }

  /** A date in an earlier year has the smaller ordinal. */
  lemma YearsDecide(a: CalendarDate, b: CalendarDate)
    requires a.year < b.year
    ensures Ordinal(a) < Ordinal(b)
  {
    YearOrder(a.year, b.year);
  }

  /** A date in an earlier month of the same year has the smaller ordinal. */
  lemma MonthsDecide(a: CalendarDate, b: CalendarDate)
    requires a.year == b.year && a.month < b.month
    ensures Ordinal(a) < Ordinal(b)
  {
    MonthOrder(a.year, a.month, b.month);
  }

  lemma YearStep(y: int)
    requires y >= 1
    ensures DaysBeforeYear(y + 1) == DaysBeforeYear(y) + DaysInYear(y)
  {
    StepBy4(y);
    StepBy100(y);
    StepBy400(y);
    DivisorChain(y);
    var k := (if y % 4 == 0 then 1 else 0) - (if y % 100 == 0 then 1 else 0) + (if y % 400 == 0 then 1 else 0);
    assert DaysBeforeYear(y + 1) - DaysBeforeYear(y) == 365 + k;
    assert k == (if IsLeapYear(y) then 1 else 0);
  }

  /** Multiples of 400 are multiples of 100, which are multiples of 4. */
  lemma DivisorChain(y: int)
    ensures y % 400 == 0 ==> y % 100 == 0
    ensures y % 100 == 0 ==> y % 4 == 0
  {
    if y % 400 == 0 {
      assert y == 100 * (4 * (y / 400));
      HundredsMod(4 * (y / 400));
    }
    if y % 100 == 0 {
      assert y == 4 * (25 * (y / 100));
      FoursMod(25 * (y / 100));
    }
  }

  lemma HundredsMod(a: int)
    ensures (100 * a) % 100 == 0
  {
  }

  lemma FoursMod(a: int)
    ensures (4 * a) % 4 == 0
  {
  }

  /** One more year passes a multiple of 4, 100 or 400 exactly when it is one. */
  lemma StepBy4(y: int)
    ensures y / 4 - (y - 1) / 4 == (if y % 4 == 0 then 1 else 0)
  {
  }

  lemma StepBy100(y: int)
    ensures y / 100 - (y - 1) / 100 == (if y % 100 == 0 then 1 else 0)
  {
  }

  lemma StepBy400(y: int)
    ensures y / 400 - (y - 1) / 400 == (if y % 400 == 0 then 1 else 0)
  {
  }

  lemma MonthStep(y: int, m: int)
    requires 1 <= m <= 12
    ensures m < 12 ==> DaysBeforeMonth(y, m + 1) == DaysBeforeMonth(y, m) + DaysInMonth(y, m)
    ensures m == 12 ==> DaysBeforeMonth(y, m) + DaysInMonth(y, m) == DaysInYear(y)
  {
  }

  /** A whole earlier month ends no later than a later month starts. */
  lemma {:induction false} MonthOrder(y: int, m1: int, m2: int)
    requires 1 <= m1 < m2 <= 12
    ensures DaysBeforeMonth(y, m1) + DaysInMonth(y, m1) <= DaysBeforeMonth(y, m2)
    decreases m2
  {
    MonthStep(y, m2 - 1);
    if m1 < m2 - 1 {
      MonthOrder(y, m1, m2 - 1);
    }
  }

  /** A whole earlier year ends no later than a later year starts. */
  lemma {:induction false} YearOrder(y1: int, y2: int)
    requires 1 <= y1 < y2
    ensures DaysBeforeYear(y1) + DaysInYear(y1) <= DaysBeforeYear(y2)
    decreases y2
  {
    YearStep(y2 - 1);
    if y1 < y2 - 1 {
      YearOrder(y1, y2 - 1);
    }
  }

  /** Distinct dates have distinct ordinals. */
  lemma OrdinalInjective(a: CalendarDate, b: CalendarDate)
    requires Ordinal(a) == Ordinal(b)
    ensures a == b
  {
    assert !Before(a, b) && !Before(b, a);
  }

  /** `MaxOrdinal` is the ordinal of the last date. */
  lemma LastOrdinal()
    ensures Ordinal(LastDate) == MaxOrdinal
  {
    assert DaysBeforeYear(9999) == 3651694;
  }

  /** The next day. */
  function Successor(d: CalendarDate): (e: CalendarDate)
    requires d != LastDate
    ensures Ordinal(e) == Ordinal(d) + 1
  {
    if d.day < DaysInMonth(d.year, d.month) then
      Date(d.year, d.month, d.day + 1)
    else if d.month < 12 then
      MonthStep(d.year, d.month);
      Date(d.year, d.month + 1, 1)
    else
      MonthStep(d.year, 12);
      YearStep(d.year);
      Date(d.year + 1, 1, 1)
  }

  /** `date.fromordinal(o)`: the date whose ordinal is `o`. This is a
      reference definition that counts forward one day at a time from
      0001-01-01; it is not CPython's `_ord2ymd`, which splits the ordinal
      into 400-, 100-, 4- and 1-year cycles. Both give the one date with
      that ordinal (`OrdinalInjective`). */
  function FromOrdinal(o: int): (d: CalendarDate)
    requires 1 <= o <= MaxOrdinal
    ensures Ordinal(d) == o
    decreases o
  {
    if o == 1 then FirstDate
    else
      var p := FromOrdinal(o - 1);
      assert p != LastDate by {
        LastOrdinal();
      }
      Successor(p)
  }

  lemma FromOrdinalOrdinal(d: CalendarDate)
    ensures FromOrdinal(Ordinal(d)) == d
  {
    OrdinalInjective(FromOrdinal(Ordinal(d)), d);
  }

  /** `OverflowError` of date arithmetic. */
  datatype DateError = DateOverflow

  /** `d + timedelta(days=n)`: the date `n` days later (earlier for a
      negative `n`), or an overflow when that leaves years 1..9999. */
  function AddDays(d: CalendarDate, n: int): (r: Result<CalendarDate, DateError>)
    ensures r.Ok? <==> 1 <= Ordinal(d) + n <= MaxOrdinal
    ensures r.Ok? ==> Ordinal(r.value) == Ordinal(d) + n
  {
    var o := Ordinal(d) + n;
    if 1 <= o <= MaxOrdinal then Ok(FromOrdinal(o)) else Err(DateOverflow)
  }

  /** Adding no days gives the same date back. */
  lemma AddZeroDays(d: CalendarDate)
    ensures AddDays(d, 0) == Ok(d)
  {
    var r := AddDays(d, 0);
    assert r.Ok?;
    OrdinalInjective(r.value, d);
  }
}
