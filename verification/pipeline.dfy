/** `main` from the downloads to the yearly averages: resample every
    series, check the essential ones, derive the twelve-month changes, join,
    drop incomplete months, check the table, and average by year. */
module Pipeline {
  import opened Wrappers
  import opened Calendar
  import opened Series
  import opened Resampling
  import opened Transform
  import opened Alignment
  import opened Yearly

  /** The five columns of the table, in the order they are concatenated. */
  datatype Indicator = Inflation | FedRate | NasdaqReturn | Vix | ConsumerSentiment

  const Indicators: seq<Indicator> := [Inflation, FedRate, NasdaqReturn, Vix, ConsumerSentiment]

  /** Why a run stops before averaging. */
  datatype Error =
    | MissingEssentialSeries  // CPI, federal funds rate or Nasdaq came back empty
    | EmptyTable              // no month has all five columns

  /** What the data service returned for each series (`None` when it
      returned nothing at all). */
  datatype Downloads = Downloads(
    cpi: Option<seq<Obs>>,
    fedFunds: Option<seq<Obs>>,
    nasdaq: Option<seq<Obs>>,
    vix: Option<seq<Obs>>,
    sentiment: Option<seq<Obs>>)

  /** The joined monthly table and the yearly means computed from it. */
  datatype Analysis = Analysis(table: Table, yearly: seq<YearAverage>)

  /** The service returned nothing, or an empty series. */
  predicate NoData(fetched: Option<seq<Obs>>)
  {
    fetched.None? || |fetched.value| == 0
  }

  /** An essential series is missing: `cpi.empty or fedfunds.empty or nasdaq.empty`. */
  predicate EssentialMissing(d: Downloads)
  {
    |FetchMonthly(d.cpi)| == 0 || |FetchMonthly(d.fedFunds)| == 0 || |FetchMonthly(d.nasdaq)| == 0
  }

  /** The download an indicator is computed from. */
  function Source(d: Downloads, ind: Indicator): Option<seq<Obs>>
  {
    match ind
    case Inflation => d.cpi
    case FedRate => d.fedFunds
    case NasdaqReturn => d.nasdaq
    case Vix => d.vix
    case ConsumerSentiment => d.sentiment
  }

  /** Inflation and the Nasdaq return are twelve-month changes; the other
      indicators are the resampled levels themselves. */
  predicate IsChangeIndicator(ind: Indicator)
  {
    ind == Inflation || ind == NasdaqReturn
  }

  /** The column of one indicator, defined by its name. */
  function IndicatorColumn(d: Downloads, ind: Indicator): Monthly
  {
    if IsChangeIndicator(ind) then PctChange(FetchMonthly(Source(d, ind)), YearOverYear)
    else FetchMonthly(Source(d, ind))
  }

  /** The five columns handed to `concat`, one per indicator. */
  function TableColumns(d: Downloads): (cols: seq<Monthly>)
    ensures |cols| == |Indicators|
  {
    [ PctChange(FetchMonthly(d.cpi), YearOverYear),
      FetchMonthly(d.fedFunds),
      PctChange(FetchMonthly(d.nasdaq), YearOverYear),
      FetchMonthly(d.vix),
      FetchMonthly(d.sentiment) ]
  }

  /** Columns 0 and 2 are the ones the names inflation and Nasdaq return
      call for: the twelve-month changes of their resampled downloads. */
  lemma ChangeColumnsByName(d: Downloads)
    ensures Indicators[0] == Inflation && IsChangeIndicator(Inflation)
    ensures Indicators[2] == NasdaqReturn && IsChangeIndicator(NasdaqReturn)
    ensures TableColumns(d)[0] == IndicatorColumn(d, Inflation)
    ensures TableColumns(d)[2] == IndicatorColumn(d, NasdaqReturn)
  {
    var cols := TableColumns(d);
    assert cols[0] == IndicatorColumn(d, Inflation) by {
      assert Source(d, Inflation) == d.cpi;
    }
    assert cols[2] == IndicatorColumn(d, NasdaqReturn) by {
      assert Source(d, NasdaqReturn) == d.nasdaq;
    }
  }

  /** Columns 1, 3 and 4 are the ones the names federal funds rate, VIX and
      consumer sentiment call for: their resampled levels, unchanged. */
  lemma LevelColumnsByName(d: Downloads)
    ensures Indicators[1] == FedRate && !IsChangeIndicator(FedRate)
    ensures Indicators[3] == Vix && !IsChangeIndicator(Vix)
    ensures Indicators[4] == ConsumerSentiment && !IsChangeIndicator(ConsumerSentiment)
    ensures TableColumns(d)[1] == IndicatorColumn(d, FedRate)
    ensures TableColumns(d)[3] == IndicatorColumn(d, Vix)
    ensures TableColumns(d)[4] == IndicatorColumn(d, ConsumerSentiment)
  {
    var cols := TableColumns(d);
    assert cols[1] == IndicatorColumn(d, FedRate) by {
      assert Source(d, FedRate) == d.fedFunds;
    }
    assert cols[3] == IndicatorColumn(d, Vix) by {
      assert Source(d, Vix) == d.vix;
    }
    assert cols[4] == IndicatorColumn(d, ConsumerSentiment) by {
      assert Source(d, ConsumerSentiment) == d.sentiment;
    }
  }

  /** The checks and the join of `main`: a missing essential series or a
      table left empty by `dropna` stops the run. */
  function BuildTable(d: Downloads): (r: Result<Table, Error>)
    ensures r == Failure(MissingEssentialSeries) <==> NoData(d.cpi) || NoData(d.fedFunds) || NoData(d.nasdaq)
    ensures r == Failure(EmptyTable) <==>
              !EssentialMissing(d) && forall m :: !Complete(TableColumns(d), m)
    ensures r.Success? ==> |r.value| > 0 && Ascending(r.value) && RowsFrom(TableColumns(d), r.value)
    ensures r.Success? ==> Rectangular(r.value, |Indicators|)
    ensures r.Success? ==> forall m :: Complete(TableColumns(d), m) ==> exists k :: 0 <= k < |r.value| && r.value[k].month == m
  {
    if EssentialMissing(d) then Failure(MissingEssentialSeries)
    else
      var t := Join(TableColumns(d));
      if |t| == 0 then
        assert forall m :: !Complete(TableColumns(d), m);
        Failure(EmptyTable)
      else
        assert Complete(TableColumns(d), t[0].month);
        Success(t)
  }

  /** The whole run up to the report: the table and its yearly means over
      `endYear - 4 .. endYear`, or the reason the run stops. */
  method Analyze(d: Downloads, endYear: int) returns (r: Result<Analysis, Error>)
    ensures r.Failure? <==> BuildTable(d).Failure?
    ensures r.Failure? ==> r.error == BuildTable(d).error
    ensures r.Success? ==> r.value.table == BuildTable(d).value
    ensures r.Success? ==> Rectangular(r.value.table, |Indicators|)
    ensures r.Success? ==> IsYearlyAverages(r.value.table, |Indicators|, endYear, r.value.yearly)
  {
    var built := BuildTable(d);
    if built.Failure? {
      return Failure(built.error);
    }
    var t := built.value;
    assert Rectangular(t, |Indicators|);
    var yearly := YearlyAverages(t, |Indicators|, endYear);
    r := Success(Analysis(t, yearly));
  }

  /** An empty volatility or sentiment download does not stop the run by
      itself, but it leaves no complete month, so the run stops at the
      empty-table check. */
  lemma AuxiliaryEmptyAborts(d: Downloads)
    requires !EssentialMissing(d)
    requires |FetchMonthly(d.vix)| == 0 || |FetchMonthly(d.sentiment)| == 0
    ensures BuildTable(d) == Failure(EmptyTable)
  {
    var cols := TableColumns(d);
    if |FetchMonthly(d.vix)| == 0 {
      EmptyColumnEmptiesJoin(cols, 3);
    } else {
      EmptyColumnEmptiesJoin(cols, 4);
    }
  }

  /** Month `m` of the gap-free series `s` holds a value that `v` percent
      takes from the value at the same month one year earlier. */
  ghost predicate YearOverYearWitness(s: Monthly, m: int, v: real)
  {
    exists i :: YearOverYear <= i < |s|
      && s[i].month == m
      && YearOf(s[i - YearOverYear].month) == YearOf(m) - 1
      && MonthOf(s[i - YearOverYear].month) == MonthOf(m)
      && s[i].value.Some? && s[i - YearOverYear].value.Some?
      && IsChange(s[i].value.value, s[i - YearOverYear].value.value, v)
  }

  /** A year-over-year change found at month `m` of a gap-free series
      relates the values at `m` and at the same month one year earlier. */
  lemma YearOverYearAt(s: Monthly, m: int, v: real)
    requires Contiguous(s)
    requires ValueAt(PctChange(s, YearOverYear), m) == Some(v)
    ensures YearOverYearWitness(s, m, v)
  {
    var change := PctChange(s, YearOverYear);
    var i :| 0 <= i < |change| && change[i].month == m && change[i].value == Some(v);
    assert YearOverYear <= i;
    YearOverYearAligned(s, i);
    var j := i - YearOverYear;
    assert s[i].value.Some? && s[j].value.Some?;
    assert IsChange(s[i].value.value, s[j].value.value, v);
    assert s[i].month == m;
  }

  /** Columns 0 and 2 are the twelve-month changes of resampled CPI and
      the resampled Nasdaq composite. */
  lemma ChangeColumns(d: Downloads)
    ensures TableColumns(d)[0] == PctChange(FetchMonthly(d.cpi), YearOverYear)
    ensures TableColumns(d)[2] == PctChange(FetchMonthly(d.nasdaq), YearOverYear)
  {
  }

  /** A built table is drawn from the table's columns. */
  lemma BuiltRows(d: Downloads)
    ensures BuildTable(d).Success? ==> RowsFrom(TableColumns(d), BuildTable(d).value)
  {
  }

  /** Every cell of column `c` of table `t` is the change in percent of
      `level` at that row's month against the same month one year earlier. */
  ghost predicate ChangeColumnCells(t: Table, c: int, level: Monthly)
  {
    forall k :: 0 <= k < |t| ==>
      0 <= c < |t[k].values| && YearOverYearWitness(level, t[k].month, t[k].values[c])
  }

  /** Every cell of column `c` of a table drawn from `cols`, where column
      `c` is the twelve-month change of the gap-free series `level`, is
      that change against the same month one year earlier. */
  lemma ChangeCells(cols: seq<Monthly>, t: Table, c: int, level: Monthly)
    requires 0 <= c < |cols| && cols[c] == PctChange(level, YearOverYear)
    requires Contiguous(level) && RowsFrom(cols, t)
    ensures ChangeColumnCells(t, c, level)
  {
    forall k | 0 <= k < |t|
      ensures YearOverYearWitness(level, t[k].month, t[k].values[c])
    {
      assert Some(t[k].values[c]) == ValueAt(cols[c], t[k].month);
      YearOverYearAt(level, t[k].month, t[k].values[c]);
    }
  }

  /** The inflation cell of a month is the change in percent of the
      resampled CPI against the same month one year earlier. */
  lemma InflationIsYearOverYear(d: Downloads)
    ensures BuildTable(d).Success? ==> ChangeColumnCells(BuildTable(d).value, 0, FetchMonthly(d.cpi))
  {
    if BuildTable(d).Success? {
      FetchMonthlyContiguous(d.cpi);
      ChangeColumns(d);
      BuiltRows(d);
      ChangeCells(TableColumns(d), BuildTable(d).value, 0, FetchMonthly(d.cpi));
    }
  }

  /** The Nasdaq cell of a month is the change in percent of the resampled
      Nasdaq composite against the same month one year earlier. */
  lemma NasdaqReturnIsYearOverYear(d: Downloads)
    ensures BuildTable(d).Success? ==> ChangeColumnCells(BuildTable(d).value, 2, FetchMonthly(d.nasdaq))
  {
    if BuildTable(d).Success? {
      FetchMonthlyContiguous(d.nasdaq);
      ChangeColumns(d);
      BuiltRows(d);
      ChangeCells(TableColumns(d), BuildTable(d).value, 2, FetchMonthly(d.nasdaq));
    }
  }
}
