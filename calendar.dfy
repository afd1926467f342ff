/**
 * `getYearDifference`: the whole-year gap between two calendar dates, read as
 * (year, month, day) triples.  The naive year subtraction is corrected by one
 * when the end's (month, day) comes before the start's.
 */
module Calendar {

  /** A calendar date as the source reads it back from a `Date` object:
      `getFullYear()`, the month numbered 1 to 12 (`getMonth() + 1`) and
      `getDate()`.  Only differences of months enter the year difference, so
      the numbering's origin does not matter as long as every date, the
      defaults included, uses the same one. */
  datatype Date = Date(year: int, month: int, day: int)

  /** The defaults of the multi-frame request when `startYear` or `endYear` is
      not given. */
  const DefaultStart: Date := Date(2000, 1, 1)
  const DefaultEnd: Date := Date(2024, 12, 31)

  /** Chronological order on dates: by year, then month, then day. */
  predicate OnOrBefore(a: Date, b: Date)
  {
    a.year < b.year
    || (a.year == b.year && a.month < b.month)
    || (a.year == b.year && a.month == b.month && a.day <= b.day)
  }

  /** The date `k` years after `start`, on the same month and day. */
  function Anniversary(start: Date, k: int): Date
  {
    Date(start.year + k, start.month, start.day)
  }

  /** `getYearDifference`. */
  function YearDifference(start: Date, end: Date): (d: int)
    ensures end.year - start.year - 1 <= d <= end.year - start.year
  {
    var yearDiff := end.year - start.year;
    var monthDiff := end.month - start.month;
    var dayDiff := end.day - start.day;
    if monthDiff < 0 || (monthDiff == 0 && dayDiff < 0) then yearDiff - 1 else yearDiff
  }

  /** The year difference counts whole years: the `d`-th anniversary of the
      start falls on or before the end and the next one does not.  This holds
      for an end before the start too, where `d` is negative. */
  lemma YearDifferenceIsWholeYears(start: Date, end: Date)
    ensures OnOrBefore(Anniversary(start, YearDifference(start, end)), end)
    ensures !OnOrBefore(Anniversary(start, YearDifference(start, end) + 1), end)
  {
  }

  /** Only one number of years has that property. */
  lemma WholeYearsUnique(start: Date, end: Date, k: int)
    requires OnOrBefore(Anniversary(start, k), end)
    requires !OnOrBefore(Anniversary(start, k + 1), end)
    ensures k == YearDifference(start, end)
  {
  }

  /** The correction is exactly one year, applied exactly when the end's
      (month, day) precedes the start's; identical dates are zero years apart. */
  lemma YearDifferenceCorrection(start: Date, end: Date)
    ensures end.year - start.year - 1 <= YearDifference(start, end) <= end.year - start.year
    ensures YearDifference(start, end) == end.year - start.year - 1
            <==> (end.month < start.month || (end.month == start.month && end.day < start.day))
    ensures YearDifference(start, start) == 0
  {
  }

  /** Moving the end date later never shrinks the gap. */
  lemma YearDifferenceMonotone(start: Date, end1: Date, end2: Date)
    requires OnOrBefore(end1, end2)
    ensures YearDifference(start, end1) <= YearDifference(start, end2)
  {
  }

  /** Numbering the months from 0, as `getMonth()` does, instead of from 1
      gives the same gap. */
  lemma MonthOriginIrrelevant(start: Date, end: Date)
    ensures YearDifference(Date(start.year, start.month - 1, start.day), Date(end.year, end.month - 1, end.day))
            == YearDifference(start, end)
  {
  }

  /** With the default start, an end of 15 January 2010 is ten whole years
      later, and the default range spans 24 whole years. */
  lemma DefaultRangeExamples()
    ensures YearDifference(DefaultStart, Date(2010, 1, 15)) == 10
    ensures YearDifference(DefaultStart, DefaultEnd) == 24
  {
  }
}
