/** The UTC calendar part of a JavaScript `Date`: `getUTCFullYear()`,
    `getUTCMonth()` (0-based) and `getUTCDate()` (1-based), on the proleptic
    Gregorian calendar that `Date` uses. The time of day is not modelled: no
    operation here depends on it. */
module UtcDate {

  datatype Date = Date(year: int, month: nat, day: nat)

  predicate IsLeapYear(y: int) {
    y % 4 == 0 && (y % 100 != 0 || y % 400 == 0)
  }

  function DaysInMonth(y: int, month: nat): (n: nat)
    requires month < 12
    ensures 28 <= n <= 31
  {
    if month == 1 then (if IsLeapYear(y) then 29 else 28)
    else if month == 3 || month == 5 || month == 8 || month == 10 then 30
    else 31
  }

  /** A calendar date that a `Date` object can hold. */
  predicate ValidDate(d: Date) {
    d.month < 12 && 1 <= d.day <= DaysInMonth(d.year, d.month)
  }

  /** `d.setUTCFullYear(d.getUTCFullYear() + k)`: the month and day are kept,
      except that JavaScript normalises 29 February of a year that is not a
      leap year to 1 March. */
  function ShiftYears(d: Date, k: int): (r: Date)
    requires ValidDate(d)
    ensures ValidDate(r) && r.year == d.year + k
    ensures (r.month == d.month && r.day == d.day)
            || (d.month == 1 && d.day == 29 && !IsLeapYear(d.year + k) && r.month == 2 && r.day == 1)
  {
    if d.month == 1 && d.day == 29 && !IsLeapYear(d.year + k) then Date(d.year + k, 2, 1)
    else Date(d.year + k, d.month, d.day)
  }

  /** The next calendar day. */
  function NextDay(d: Date): (r: Date)
    requires ValidDate(d)
    ensures ValidDate(r)
  {
    if d.day < DaysInMonth(d.year, d.month) then Date(d.year, d.month, d.day + 1)
    else if d.month < 11 then Date(d.year, d.month + 1, 1)
    else Date(d.year + 1, 0, 1)
  }

  /** The previous calendar day. */
  function PrevDay(d: Date): (r: Date)
    requires ValidDate(d)
    ensures ValidDate(r)
  {
    if d.day > 1 then Date(d.year, d.month, d.day - 1)
    else if d.month > 0 then Date(d.year, d.month - 1, DaysInMonth(d.year, d.month - 1))
    else Date(d.year - 1, 11, 31)
  }

  /** `NextDay` and `PrevDay` are inverse bijections on valid dates. */
  lemma PrevNextDay(d: Date)
    requires ValidDate(d)
    ensures PrevDay(NextDay(d)) == d && NextDay(PrevDay(d)) == d
  {
  }

  /** A day step never lands on a year shift: the neighbouring days of `d`
      differ from `d` and from `d` moved by one year either way. */
  lemma DayStepIsNoYearShift(d: Date)
    requires ValidDate(d)
    ensures NextDay(d) != d && PrevDay(d) != d
    ensures NextDay(d) != ShiftYears(d, 1) && NextDay(d) != ShiftYears(d, -1)
    ensures PrevDay(d) != ShiftYears(d, 1) && PrevDay(d) != ShiftYears(d, -1)
  {
  }
}
