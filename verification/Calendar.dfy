/**
 The proleptic Gregorian calendar behind Go's Time: days are counted from 1 January of year 1,
 a date is turned into a day and back, and the two directions are inverse to each other.
 */
module Calendar {

  datatype Date = Date(year: int, month: int, day: int)

  predicate IsLeap(year: int) {
    year % 4 == 0 && (year % 100 != 0 || year % 400 == 0)
  }

  function YearLength(year: int): int {
    if IsLeap(year) then 366 else 365
  }

  /** Days from 1 January of year 1 to that of `year`; negative for the years before. */
  function DaysBeforeYear(year: int): int
    decreases if year > 1 then year - 1 else 1 - year
  {
    if year == 1 then 0
    else if year > 1 then DaysBeforeYear(year - 1) + YearLength(year - 1)
    else DaysBeforeYear(year + 1) - YearLength(year)
  }

  lemma NextYear(year: int)
    ensures DaysBeforeYear(year + 1) == DaysBeforeYear(year) + YearLength(year)
  {
  }

  function DaysIn(year: int, month: int): int {
    if month == 2 then (if IsLeap(year) then 29 else 28)
    else if month in {4, 6, 9, 11} then 30
    else 31
  }

  function DaysBeforeMonth(year: int, month: int): int
    requires 1 <= month
    decreases month
  {
    if month == 1 then 0 else DaysBeforeMonth(year, month - 1) + DaysIn(year, month - 1)
  }

  predicate ValidDate(date: Date) {
    1 <= date.month <= 12 && 1 <= date.day <= DaysIn(date.year, date.month)
  }

  function ToDays(date: Date): int
    requires ValidDate(date)
  {
    DaysBeforeYear(date.year) + DaysBeforeMonth(date.year, date.month) + date.day - 1
  }

  /** The year that `day` lies in, sought from `year`. */
  function YearFrom(day: int, year: int): int
    decreases if day < DaysBeforeYear(year) then DaysBeforeYear(year) - day + 366
              else if day < DaysBeforeYear(year + 1) then 0
              else day - DaysBeforeYear(year)
  {
    NextYear(year - 1);
    NextYear(year);
    NextYear(year + 1);
    if day < DaysBeforeYear(year) then YearFrom(day, year - 1)
    else if day < DaysBeforeYear(year + 1) then year
    else YearFrom(day, year + 1)
  }

  function YearOf(day: int): int {
    YearFrom(day, 1)
  }

  /** The month, not before `month`, that day `dayOfYear` (from 0) falls in. */
  function MonthOf(year: int, dayOfYear: int, month: int): (m: int)
    requires 1 <= month <= 12
    ensures month <= m <= 12
    ensures DaysBeforeMonth(year, month) <= dayOfYear < DaysBeforeMonth(year, 13) ==>
              DaysBeforeMonth(year, m) <= dayOfYear < DaysBeforeMonth(year, m) + DaysIn(year, m)
    decreases 12 - month
  {
    if month == 12 || dayOfYear < DaysBeforeMonth(year, month) + DaysIn(year, month) then month
    else MonthOf(year, dayOfYear, month + 1)
  }

  function FromDays(day: int): Date {
    var year := YearOf(day);
    var dayOfYear := day - DaysBeforeYear(year);
    var month := MonthOf(year, dayOfYear, 1);
    Date(year, month, dayOfYear - DaysBeforeMonth(year, month) + 1)
  }

  lemma {:induction false} YearFromIsRight(day: int, year: int)
    ensures DaysBeforeYear(YearFrom(day, year)) <= day < DaysBeforeYear(YearFrom(day, year) + 1)
    decreases if day < DaysBeforeYear(year) then DaysBeforeYear(year) - day + 366
              else if day < DaysBeforeYear(year + 1) then 0
              else day - DaysBeforeYear(year)
  {
    NextYear(year - 1);
    NextYear(year);
    NextYear(year + 1);
    if day < DaysBeforeYear(year) {
      YearFromIsRight(day, year - 1);
    } else if day >= DaysBeforeYear(year + 1) {
      YearFromIsRight(day, year + 1);
    }
  }

  lemma MonthsOfYear(year: int)
    ensures DaysBeforeMonth(year, 13) == YearLength(year)
  {
  }

  lemma YearsIncrease(y: int, z: int)
    requires y <= z
    ensures DaysBeforeYear(y) <= DaysBeforeYear(z)
    decreases z - y
  {
    if y < z {
      YearsIncrease(y, z - 1);
      NextYear(z - 1);
    }
  }

  lemma MonthsIncrease(year: int, m: int, n: int)
    requires 1 <= m <= n
    ensures DaysBeforeMonth(year, m) <= DaysBeforeMonth(year, n)
    decreases n - m
  {
  }

  lemma FromDaysValid(day: int)
    ensures ValidDate(FromDays(day))
    ensures ToDays(FromDays(day)) == day
  {
    YearFromIsRight(day, 1);
    NextYear(YearOf(day));
    MonthsOfYear(YearOf(day));
    assert DaysBeforeMonth(YearOf(day), 1) == 0;
  }

  lemma DayInsideYear(date: Date)
    requires ValidDate(date)
    ensures DaysBeforeYear(date.year) <= ToDays(date) < DaysBeforeYear(date.year + 1)
  {
    NextYear(date.year);
    MonthsOfYear(date.year);
    MonthsIncrease(date.year, 1, date.month);
    MonthsIncrease(date.year, date.month + 1, 13);
  }

  lemma SameDaySameYear(d: Date, e: Date)
    requires ValidDate(d) && ValidDate(e) && ToDays(d) == ToDays(e)
    ensures d.year == e.year
  {
    DayInsideYear(d);
    DayInsideYear(e);
    if d.year < e.year {
      YearsIncrease(d.year + 1, e.year);
    } else if e.year < d.year {
      YearsIncrease(e.year + 1, d.year);
    }
  }

  lemma SameDaySameDate(d: Date, e: Date)
    requires ValidDate(d) && ValidDate(e) && ToDays(d) == ToDays(e)
    ensures d == e
  {
    SameDaySameYear(d, e);
    if d.month < e.month {
      MonthsIncrease(d.year, d.month + 1, e.month);
    } else if e.month < d.month {
      MonthsIncrease(d.year, e.month + 1, d.month);
    }
  }

  /** A valid date survives the trip to its day number and back. */
  lemma ToDaysInverse(date: Date)
    requires ValidDate(date)
    ensures FromDays(ToDays(date)) == date
  {
    FromDaysValid(ToDays(date));
    SameDaySameDate(FromDays(ToDays(date)), date);
  }

  // ---- The Gregorian calendar ----

  /** A quotient grows with its dividend exactly at the multiples of the divisor. */
  lemma QuotientStep(y: int, k: int)
    requires k > 0
    ensures y / k == (y - 1) / k + if y % k == 0 then 1 else 0
  {
    var q, r := (y - 1) / k, (y - 1) % k;
    assert y == q * k + (r + 1);
    if r + 1 == k {
      Quotient(y, k, q + 1, 0);
    } else {
      Quotient(y, k, q, r + 1);
    }
  }

  lemma Quotient(y: int, k: int, q: int, r: int)
    requires k > 0 && y == q * k + r && 0 <= r < k
    ensures y / k == q && y % k == r
  {
    var d := y / k - q;
    assert y / k * k + y % k == y;
    assert d * k == r - y % k;
    if d >= 1 {
      Product(1, d, k);
    } else if d <= -1 {
      Product(d, -1, k);
    }
  }

  lemma Product(a: int, b: int, k: int)
    requires a <= b && k > 0
    ensures a * k <= b * k
  {
  }

  /** 365 days a year and a leap day every fourth, but for the centuries that 400 does not divide. */
  lemma {:induction false} YearsInClosedForm(year: int)
    ensures DaysBeforeYear(year) == 365 * (year - 1) + (year - 1) / 4 - (year - 1) / 100 + (year - 1) / 400
    decreases if year > 1 then year - 1 else 1 - year
  {
    if year == 1 {
    } else if year > 1 {
      YearsInClosedForm(year - 1);
      LeapDays(year - 1);
    } else {
      YearsInClosedForm(year + 1);
      LeapDays(year);
    }
  }

  lemma LeapDays(year: int)
    ensures YearLength(year) - 365
         == (year / 4 - (year - 1) / 4) - (year / 100 - (year - 1) / 100) + (year / 400 - (year - 1) / 400)
  {
    QuotientStep(year, 4);
    QuotientStep(year, 100);
    QuotientStep(year, 400);
    if year % 100 == 0 {
      Quotient(year, 4, 25 * (year / 100), 0);
    }
    if year % 400 == 0 {
      Quotient(year, 100, 4 * (year / 400), 0);
    }
  }

  const MONTH_LENGTHS := [31, 28, 31, 30, 31, 30, 31, 31, 30, 31, 30, 31]
  const DAYS_BEFORE := [0, 31, 59, 90, 120, 151, 181, 212, 243, 273, 304, 334]

  function LeapDay(year: int): int {
    if year % 4 == 0 && (year % 100 != 0 || year % 400 == 0) then 1 else 0
  }

  /** The number of a day, counted from 1 January of year 1, in closed form. */
  function GregorianDay(year: int, month: int, day: int): int
    requires 1 <= month <= 12
  {
    365 * (year - 1) + (year - 1) / 4 - (year - 1) / 100 + (year - 1) / 400
    + DAYS_BEFORE[month - 1] + (if month > 2 then LeapDay(year) else 0) + day - 1
  }

  lemma MonthsInClosedForm(year: int, month: int)
    requires 1 <= month <= 12
    ensures DaysBeforeMonth(year, month) == DAYS_BEFORE[month - 1] + if month > 2 then LeapDay(year) else 0
    ensures DaysIn(year, month) == MONTH_LENGTHS[month - 1] + if month == 2 then LeapDay(year) else 0
  {
    if month > 1 {
      MonthsInClosedForm(year, month - 1);
    }
  }

  /** The dates are those of the Gregorian calendar, in both directions. */
  lemma DatesAreGregorian(date: Date)
    ensures ValidDate(date) <==>
      && 1 <= date.month <= 12
      && 1 <= date.day <= MONTH_LENGTHS[date.month - 1] + if date.month == 2 then LeapDay(date.year) else 0
    ensures ValidDate(date) ==> ToDays(date) == GregorianDay(date.year, date.month, date.day)
    ensures ValidDate(date) ==> FromDays(GregorianDay(date.year, date.month, date.day)) == date
  {
    if 1 <= date.month <= 12 {
      MonthsInClosedForm(date.year, date.month);
      YearsInClosedForm(date.year);
    }
    if ValidDate(date) {
      ToDaysInverse(date);
    }
  }
}
