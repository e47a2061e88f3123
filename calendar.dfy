/** The validity check performed by Python's `datetime.date(year, month, day)`
    constructor, which the core relies on to reject impossible dates. */
module Calendar {
  import opened Errors

  /** `datetime.MINYEAR` and `datetime.MAXYEAR`. */
  const MinYear := 1
  const MaxYear := 9999

  /** A `datetime.date` value. */
  datatype Date = Date(year: int, month: int, day: int)

  /** Gregorian leap years. */
  predicate IsLeapYear(year: int) {
    year % 4 == 0 && (year % 100 != 0 || year % 400 == 0)
  }

  function DaysInMonth(year: int, month: int): (n: int)
    requires 1 <= month <= 12
    ensures 28 <= n <= 31
    ensures n == 29 <==> month == 2 && IsLeapYear(year)
    ensures n == 28 <==> month == 2 && !IsLeapYear(year)
  {
    if month == 2 then (if IsLeapYear(year) then 29 else 28)
    else if month == 4 || month == 6 || month == 9 || month == 11 then 30
    else 31
  }

  /** The triple names a day that `datetime.date` accepts. */
  predicate IsValidDate(year: int, month: int, day: int) {
    MinYear <= year <= MaxYear && 1 <= month <= 12 && 1 <= day <= DaysInMonth(year, month)
  }

  /** The range of a C `int`, into which CPython's `date(...)` reads each
      of its three arguments before it checks them. */
  const IntMin := -0x8000_0000
  const IntMax := 0x7FFF_FFFF

  predicate FitsCInt(x: int) {
    IntMin <= x <= IntMax
  }

  predicate FitCInts(year: int, month: int, day: int) {
    FitsCInt(year) && FitsCInt(month) && FitsCInt(day)
  }

  /** `date(year=year, month=month, day=day)`: `OverflowError` when an
      argument does not fit a C `int`, else the date or `ValueError`. */
  function MakeDate(year: int, month: int, day: int): Result<Date> {
    if !FitCInts(year, month, day) then Err(OverflowError)
    else if IsValidDate(year, month, day) then Ok(Date(year, month, day))
    else Err(ValueError)
  }

  /** The three outcomes of `date(...)`: a date exactly for a valid triple,
      holding that triple; `OverflowError` exactly for an argument outside
      the C `int` range; `ValueError` exactly for an in-range invalid triple. */
  lemma MakeDateOutcomes(year: int, month: int, day: int)
    ensures MakeDate(year, month, day).Ok? <==> IsValidDate(year, month, day)
    ensures MakeDate(year, month, day).Ok? ==> MakeDate(year, month, day).value == Date(year, month, day)
    ensures MakeDate(year, month, day) == Err(OverflowError) <==> !FitCInts(year, month, day)
    ensures MakeDate(year, month, day) == Err(ValueError) <==>
      FitCInts(year, month, day) && !IsValidDate(year, month, day)
  {
    if IsValidDate(year, month, day) {
      ValidDateFitsCInts(year, month, day);
    }
  }

  /** Every valid triple fits the C `int` range, so the range check never
      rejects a date. */
  lemma ValidDateFitsCInts(year: int, month: int, day: int)
    requires IsValidDate(year, month, day)
    ensures FitCInts(year, month, day)
  {
    assert day <= DaysInMonth(year, month) <= 31;
  }
}
