/** The proleptic Gregorian calendar and the day arithmetic of section 21.4.1 of ECMA-262. */
module Calendar {
  datatype Date = Date(year: int, month: int, day: int)

  predicate Leap(y: int) {
    y % 4 == 0 && (y % 100 != 0 || y % 400 == 0)
  }

  function DaysInYear(y: int): int {
    if Leap(y) then 366 else 365
  }

  function DaysInMonth(y: int, m: int): (n: int)
    requires 1 <= m <= 12
    ensures 28 <= n <= 31
  {
    if m == 2 then if Leap(y) then 29 else 28
    else if m in {4, 6, 9, 11} then 30
    else 31
  }

  predicate ValidDate(d: Date) {
    1 <= d.month <= 12 && 1 <= d.day <= DaysInMonth(d.year, d.month)
  }

  // ---- ECMA-262 ----

  function DayFromYear(y: int): int {
    365 * (y - 1970) + (y - 1969) / 4 - (y - 1901) / 100 + (y - 1601) / 400
  }

  /** Days of the year before month m, counted from 1; month 13 stands for the end of the year. */
  function MonthStart(y: int, m: int): int
    requires 1 <= m <= 13
  {
    var leap := if Leap(y) then 1 else 0;
    if m == 1 then 0
    else if m == 2 then 31
    else if m == 3 then 59 + leap
    else if m == 4 then 90 + leap
    else if m == 5 then 120 + leap
    else if m == 6 then 151 + leap
    else if m == 7 then 181 + leap
    else if m == 8 then 212 + leap
    else if m == 9 then 243 + leap
    else if m == 10 then 273 + leap
    else if m == 11 then 304 + leap
    else if m == 12 then 334 + leap
    else 365 + leap
  }

  /** Month counted from 0; a month or day outside its range rolls over. */
  function MakeDay(year: int, month: int, date: int): int {
    var y := year + month / 12;
    DayFromYear(y) + MonthStart(y, month % 12 + 1) + date - 1
  }

  function DayNumber(d: Date): int
    requires ValidDate(d)
  {
    DayFromYear(d.year) + MonthStart(d.year, d.month) + d.day - 1
  }

  lemma MonthLength(y: int, m: int)
    requires 1 <= m <= 12
    ensures MonthStart(y, m + 1) == MonthStart(y, m) + DaysInMonth(y, m)
    ensures MonthStart(y, 1) == 0 && MonthStart(y, 13) == DaysInYear(y)
  {
  }

  lemma YearLength(y: int)
    ensures DayFromYear(y + 1) == DayFromYear(y) + DaysInYear(y)
  {
    FourthYear(y);
    HundredthYear(y);
    FourHundredthYear(y);
    CenturiesNest(y);
  }

  lemma FourthYear(y: int)
    ensures (y - 1968) / 4 == (y - 1969) / 4 + if y % 4 == 0 then 1 else 0
  {
  }

  lemma HundredthYear(y: int)
    ensures (y - 1900) / 100 == (y - 1901) / 100 + if y % 100 == 0 then 1 else 0
  {
  }

  lemma FourHundredthYear(y: int)
    ensures (y - 1600) / 400 == (y - 1601) / 400 + if y % 400 == 0 then 1 else 0
  {
  }

  lemma CenturiesNest(y: int)
    ensures y % 400 == 0 ==> y % 100 == 0
    ensures y % 100 == 0 ==> y % 4 == 0
  {
  }

  lemma {:induction false} YearsAscend(a: int, b: int)
    requires a <= b
    ensures DayFromYear(a) + 365 * (b - a) <= DayFromYear(b)
    decreases b - a
  {
    if a < b {
      YearsAscend(a, b - 1);
      YearLength(b - 1);
    }
  }

  /** The largest year that has begun on day n. */
  function YearFromDay(n: int): (y: int)
    ensures DayFromYear(y) <= n < DayFromYear(y + 1)
  {
    SearchYear(n, 1970)
  }

  function SearchYear(n: int, y: int): (r: int)
    ensures DayFromYear(r) <= n < DayFromYear(r + 1)
    decreases n < DayFromYear(y), if n < DayFromYear(y) then DayFromYear(y) - n else n - DayFromYear(y)
  {
    YearLength(y);
    YearLength(y - 1);
    if n < DayFromYear(y) then SearchYear(n, y - 1)
    else if n >= DayFromYear(y + 1) then SearchYear(n, y + 1)
    else y
  }

  lemma YearIsUnique(n: int, y: int)
    requires DayFromYear(y) <= n < DayFromYear(y + 1)
    ensures YearFromDay(n) == y
  {
    var r := YearFromDay(n);
    if r < y { YearsAscend(r + 1, y); } else if y < r { YearsAscend(y + 1, r); }
  }

  function MonthFromDay(y: int, dayInYear: int): (m: int)
    requires 0 <= dayInYear < DaysInYear(y)
    ensures 1 <= m <= 12 && MonthStart(y, m) <= dayInYear < MonthStart(y, m + 1)
  {
    MonthLength(y, 1);
    SearchMonth(y, dayInYear, 1)
  }

  function SearchMonth(y: int, dayInYear: int, m: int): (r: int)
    requires 1 <= m <= 12 && MonthStart(y, m) <= dayInYear < DaysInYear(y)
    ensures 1 <= r <= 12 && MonthStart(y, r) <= dayInYear < MonthStart(y, r + 1)
    decreases 12 - m
  {
    if dayInYear < MonthStart(y, m + 1) then m
    else
      MonthLength(y, m);
      SearchMonth(y, dayInYear, m + 1)
  }

  lemma MonthIsUnique(y: int, dayInYear: int, m: int)
    requires 1 <= m <= 12 && 0 <= dayInYear < DaysInYear(y)
    requires MonthStart(y, m) <= dayInYear < MonthStart(y, m + 1)
    ensures MonthFromDay(y, dayInYear) == m
  {
    var r := MonthFromDay(y, dayInYear);
    if r < m { MonthsAscend(y, r + 1, m); } else if m < r { MonthsAscend(y, m + 1, r); }
  }

  function DateFromDay(n: int): Date {
    var y := YearFromDay(n);
    YearLength(y);
    MonthLength(y, 1);
    var dayInYear := n - DayFromYear(y);
    var m := MonthFromDay(y, dayInYear);
    Date(y, m, dayInYear - MonthStart(y, m) + 1)
  }

  // ---- Day numbers count days ----

  /** The day after, by the calendar. */
  function NextDay(d: Date): Date
    requires ValidDate(d)
  {
    if d.day < DaysInMonth(d.year, d.month) then Date(d.year, d.month, d.day + 1)
    else if d.month < 12 then Date(d.year, d.month + 1, 1)
    else Date(d.year + 1, 1, 1)
  }

  /** Day numbers start at 1 January 1970 and go up by one from each date to the next. */
  lemma DayNumberCountsDays(d: Date)
    requires ValidDate(d)
    ensures DayNumber(Date(1970, 1, 1)) == 0
    ensures ValidDate(NextDay(d)) && DayNumber(NextDay(d)) == DayNumber(d) + 1
  {
    YearLength(d.year);
    MonthLength(d.year, d.month);
  }

  lemma {:induction false} MonthsAscend(y: int, a: int, b: int)
    requires 1 <= a <= b <= 13
    ensures MonthStart(y, a) <= MonthStart(y, b)
    decreases b - a
  {
    if a < b {
      MonthsAscend(y, a, b - 1);
      MonthLength(y, b - 1);
    }
  }

  /** Dates and day numbers are in bijection, over all years. */
  lemma DateOfDayNumber(d: Date)
    requires ValidDate(d)
    ensures DateFromDay(DayNumber(d)) == d
  {
    var dayInYear := MonthStart(d.year, d.month) + d.day - 1;
    YearLength(d.year);
    MonthLength(d.year, d.month);
    MonthsAscend(d.year, 1, d.month);
    MonthsAscend(d.year, d.month + 1, 13);
    YearIsUnique(DayNumber(d), d.year);
    MonthIsUnique(d.year, dayInYear, d.month);
  }

  lemma DayNumberOfDate(n: int)
    ensures ValidDate(DateFromDay(n)) && DayNumber(DateFromDay(n)) == n
  {
    var y := YearFromDay(n);
    YearLength(y);
    MonthLength(y, MonthFromDay(y, n - DayFromYear(y)));
  }

  /** On a valid date no field rolls over. */
  lemma MakeDayOfValidDate(d: Date)
    requires ValidDate(d)
    ensures MakeDay(d.year, d.month - 1, d.day) == DayNumber(d)
  {
  }

  /** Months and days outside their ranges roll over: twelve months are a year, and the days go on being counted. */
  lemma MakeDayRollsOver(year: int, month: int, date: int, days: int)
    ensures MakeDay(year, month + 12, date) == MakeDay(year + 1, month, date)
    ensures MakeDay(year, month, date + days) == MakeDay(year, month, date) + days
  {
    assert (month + 12) / 12 == month / 12 + 1;
    assert (month + 12) % 12 == month % 12;
  }

  lemma DayWithinYear(d: Date)
    requires ValidDate(d)
    ensures DayFromYear(d.year) <= DayNumber(d) < DayFromYear(d.year + 1)
  {
    MonthLength(d.year, d.month);
    MonthsAscend(d.year, d.month + 1, 13);
    MonthsAscend(d.year, 1, d.month);
    YearLength(d.year);
  }
}
