/**
  The proleptic Gregorian calendar as Python's `datetime` sees it, and the
  year arithmetic of `dateutil.relativedelta(years=n)` applied to a date.
 */
module Calendar {
  import opened Wrappers

  /** `datetime.MINYEAR` and `datetime.MAXYEAR`. */
  const MinYear: int := 1
  const MaxYear: int := 9999

  predicate IsLeap(y: int) {
    y % 4 == 0 && (y % 100 != 0 || y % 400 == 0)
  }

  /** `calendar.monthrange(y, m)[1]`. */
  function DaysInMonth(y: int, m: int): (n: int)
    requires 1 <= m <= 12
    ensures 28 <= n <= 31
    ensures n == 29 <==> m == 2 && IsLeap(y)
    ensures n == 28 <==> m == 2 && !IsLeap(y)
  {
    if m == 2 then (if IsLeap(y) then 29 else 28)
    else if m == 4 || m == 6 || m == 9 || m == 11 then 30
    else 31
  }

  /** A calendar date; time of day is always midnight in this model. */
  datatype Date = Date(year: int, month: int, day: int) {
    /** The dates a `datetime` can hold. */
    predicate Valid() {
      && MinYear <= year <= MaxYear
      && 1 <= month <= 12
      && 1 <= day <= DaysInMonth(year, month)
    }

    predicate IsLeapDay() { month == 2 && day == 29 }
  }

  /**
    `d + relativedelta(years=n)`: move the year, clamp the day to the length
    of the month in the new year, and fail (Python's `ValueError` from
    `datetime.replace`) when the new year leaves the supported range.
   */
  function ShiftYears(d: Date, n: int): (r: Option<Date>)
    requires d.Valid()
    ensures r.Some? <==> MinYear <= d.year + n <= MaxYear
    ensures r.Some? ==> r.value.Valid()
    ensures r.Some? ==> r.value.year == d.year + n && r.value.month == d.month
    ensures r.Some? ==> r.value.day <= d.day
    ensures r.Some? && r.value.day != d.day ==> d.IsLeapDay() && r.value.day == 28 && !IsLeap(d.year + n)
  {
    var y := d.year + n;
    if MinYear <= y <= MaxYear then
      var last := DaysInMonth(y, d.month);
      Some(Date(y, d.month, if d.day <= last then d.day else last))
    else
      None
  }

  /** A leap year is never followed, three years on, by a leap year, nor preceded three years back. */
  lemma LeapYearsThreeApart(y: int)
    requires IsLeap(y)
    ensures !IsLeap(y - 3) && !IsLeap(y + 3)
  {
  }

  /**
    The date three calendar years before `d`, as stated directly: same month
    and day in year `d.year - 3`, except that Feb 29 becomes Feb 28.
   */
  function ThreeYearsBefore(d: Date): Date {
    Date(d.year - 3, d.month, if d.IsLeapDay() then 28 else d.day)
  }

  /**
    `relativedelta(years=3)` subtracted from a valid date is exactly
    `ThreeYearsBefore`: the only clamped day is Feb 29, because `d.year - 3`
    is never a leap year when `d.year` is.
   */
  lemma {:induction false} SubtractThreeYears(d: Date)
    requires d.Valid()
    ensures ShiftYears(d, -3).Some? <==> d.year > 3
    ensures d.year > 3 ==> ShiftYears(d, -3) == Some(ThreeYearsBefore(d)) && ThreeYearsBefore(d).Valid()
  {
    if d.year > 3 && d.IsLeapDay() {
      LeapYearsThreeApart(d.year);
    }
  }

  /** Three years back never lands on Feb 29: a leap day is clamped, and no other date moves onto one. */
  lemma NeverLeapDay(d: Date)
    requires d.Valid()
    ensures !ThreeYearsBefore(d).IsLeapDay()
  {
  }

  /**
    Adding the three years back recovers the original date, except for
    Feb 29, which comes back as Feb 28.
   */
  lemma {:induction false} ShiftBackAndForth(d: Date)
    requires d.Valid() && d.year > 3
    ensures ShiftYears(d, -3).Some?
    ensures ShiftYears(ShiftYears(d, -3).value, 3)
         == Some(if d.IsLeapDay() then Date(d.year, 2, 28) else d)
  {
    SubtractThreeYears(d);
  }
}
