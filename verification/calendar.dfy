/** Calendar months as consecutive integers. */
module Calendar {

  type MonthOfYear = m: int | 1 <= m <= 12 witness 1

  /** A timestamp of a raw observation. Only its month and its rank inside
      the month (`day`) matter to the pipeline. */
  datatype Date = Date(year: int, month: MonthOfYear, day: int)

  /** Months counted from January of year 0, so that consecutive calendar
      months get consecutive indices. */
  function MonthIndex(d: Date): int
  {
    d.year * 12 + (d.month - 1)
  }

  /** The calendar year a month index falls in (`index.year` in pandas). */
  function YearOf(m: int): int
  {
    m / 12
  }

  /** The month of the year (1..12) a month index falls in. */
  function MonthOf(m: int): MonthOfYear
  {
    m % 12 + 1
  }

  /** A month index decodes back to the year and month it was built from. */
  lemma MonthIndexRoundTrip(d: Date)
    ensures YearOf(MonthIndex(d)) == d.year
    ensures MonthOf(MonthIndex(d)) == d.month
  {
    var k := d.month - 1;
    assert 0 <= k < 12;
    assert MonthIndex(d) == 12 * d.year + k;
  }

  /** Two dates share a month index exactly when they share year and month. */
  lemma MonthIndexInjective(d: Date, e: Date)
    ensures MonthIndex(d) == MonthIndex(e) <==> d.year == e.year && d.month == e.month
  {
    MonthIndexRoundTrip(d);
    MonthIndexRoundTrip(e);
  }

  /** Twelve indices back is the same month of the previous year. */
  lemma TwelveBackIsYearBefore(m: int)
    ensures YearOf(m - 12) == YearOf(m) - 1
    ensures MonthOf(m - 12) == MonthOf(m)
  {
  }
}
