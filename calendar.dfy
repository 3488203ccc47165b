/** Points in time and calendar dates, as far as the model needs them. */
module Calendar {

  /** A `DateTime` timestamp (`DateTime.UtcNow`), counted in seconds. */
  type Instant = int

  /** The length of `n` minutes (`TimeSpan.FromMinutes(n)`). */
  function Minutes(n: int): int
  {
    n * 60
  }

  /** A calendar date (`DateTime.Date`, `DateTime.Today`). */
  datatype Date = Date(year: int, month: int, day: int)

  /** Gregorian leap years. */
  predicate IsLeapYear(y: int)
  {
    y % 4 == 0 && (y % 100 != 0 || y % 400 == 0)
  }

  function DaysInMonth(y: int, m: int): (n: int)
    requires 1 <= m <= 12
    ensures 28 <= n <= 31
    ensures m == 2 ==> (n == 29 <==> IsLeapYear(y))
  {
    if m == 2 then (if IsLeapYear(y) then 29 else 28)
    else if m == 4 || m == 6 || m == 9 || m == 11 then 30
    else 31
  }

  /** A date `DateTime` can represent. */
  predicate ValidDate(d: Date)
  {
    1 <= d.year <= 9999 && 1 <= d.month <= 12 && 1 <= d.day <= DaysInMonth(d.year, d.month)
  }

  /** The strict order `a > b` on dates. */
  predicate Later(a: Date, b: Date)
  {
    a.year > b.year
    || (a.year == b.year && a.month > b.month)
    || (a.year == b.year && a.month == b.month && a.day > b.day)
  }

  /** `DateTime.AddYears(n)`: the same month and day `n` years on, except that
      29 February becomes 28 February when the target year is not a leap year. */
  function AddYears(d: Date, n: int): (r: Date)
    ensures ValidDate(d) && 1 <= d.year + n <= 9999 ==> ValidDate(r)
    ensures r.year == d.year + n && r.month == d.month
    ensures r.day == d.day || (d.month == 2 && d.day == 29 && r.day == 28 && !IsLeapYear(d.year + n))
  {
    var y := d.year + n;
    if d.month == 2 && d.day == 29 && !IsLeapYear(y) then Date(y, 2, 28) else Date(y, d.month, d.day)
  }
}
