/** The yearly means over the last five calendar years. */
module Yearly {
  import opened Wrappers
  import opened Calendar
  import opened Alignment

  /** Years averaged: `end_year - 4` through `end_year`. */
  const WindowYears: nat := 5

  /** Every row of the table has `width` cells. */
  ghost predicate Rectangular(t: Table, width: nat)
  {
    forall k :: 0 <= k < |t| ==> |t[k].values| == width
  }

  /** The rows of calendar year `y`, in table order: `df[df.index.year == y]`. */
  function RowsOfYear(t: Table, y: int): Table
  {
    if |t| == 0 then []
    else
      var last := t[|t| - 1];
      RowsOfYear(t[..|t| - 1], y) + (if YearOf(last.month) == y then [last] else [])
  }

  /** A row is selected for year `y` exactly when it is a row of the table
      in that year. */
  lemma {:induction false} RowsOfYearMembers(t: Table, y: int)
    ensures forall row :: row in RowsOfYear(t, y) <==> row in t && YearOf(row.month) == y
  {
    if |t| > 0 {
      var init := t[..|t| - 1];
      RowsOfYearMembers(init, y);
      assert t == init + [t[|t| - 1]];
    }
  }

  /** The sum of a sequence of values, taken from the front. */
  function Sum(xs: seq<real>): real
  {
    if |xs| == 0 then 0.0 else Sum(xs[..|xs| - 1]) + xs[|xs| - 1]
  }

  /** The arithmetic mean of a non-empty sequence. */
  function Mean(xs: seq<real>): real
    requires |xs| > 0
  {
    Sum(xs) / |xs| as real
  }

  /** A sum of values inside `[lo, hi]` lies between `n * lo` and `n * hi`. */
  lemma {:induction false} SumBounds(xs: seq<real>, lo: real, hi: real)
    requires forall i :: 0 <= i < |xs| ==> lo <= xs[i] <= hi
    ensures |xs| as real * lo <= Sum(xs) <= |xs| as real * hi
  {
    if |xs| > 0 {
      SumBounds(xs[..|xs| - 1], lo, hi);
    }
  }

  /** A mean lies between the smallest and largest bound of its values. */
  lemma MeanBounds(xs: seq<real>, lo: real, hi: real)
    requires |xs| > 0
    requires forall i :: 0 <= i < |xs| ==> lo <= xs[i] <= hi
    ensures lo <= Mean(xs) <= hi
  {
    SumBounds(xs, lo, hi);
    var n := |xs| as real;
    assert n * lo <= Sum(xs) <= n * hi;
    assert Mean(xs) * n == Sum(xs);
  }

  /** Column `c` of a table, top to bottom. */
  function Column(rows: Table, c: nat): (col: seq<real>)
    requires forall k :: 0 <= k < |rows| ==> c < |rows[k].values|
    ensures |col| == |rows|
  {
    seq(|rows|, k requires 0 <= k < |rows| => rows[k].values[c])
  }

  /** One entry of `yearly_averages`: a year and the mean of every column. */
  datatype YearAverage = YearAverage(year: int, means: seq<real>)

  /** Entry `e` holds, for its year, every column's mean over that
      year's rows, and the year has rows. */
  ghost predicate IsYearEntry(t: Table, width: nat, e: YearAverage)
    requires Rectangular(t, width)
  {
    RowsOfYearRectangular(t, width, e.year);
    && |RowsOfYear(t, e.year)| > 0
    && |e.means| == width
    && forall c :: 0 <= c < width ==> e.means[c] == Mean(Column(RowsOfYear(t, e.year), c))
  }

  /** `r` is what the averaging loop produces for table `t`: one entry per
      year of the window that has rows, in ascending year order, each
      holding every column's mean over the rows of that year. */
  ghost predicate IsYearlyAverages(t: Table, width: nat, endYear: int, r: seq<YearAverage>)
    requires Rectangular(t, width)
  {
    && (forall k :: 0 <= k < |r| ==> endYear - (WindowYears - 1) <= r[k].year <= endYear)
    && (forall k :: 0 <= k < |r| ==> IsYearEntry(t, width, r[k]))
    && (forall y :: endYear - (WindowYears - 1) <= y <= endYear && |RowsOfYear(t, y)| > 0 ==>
          exists k :: 0 <= k < |r| && r[k].year == y)
    && (forall k, l :: 0 <= k < l < |r| ==> r[k].year < r[l].year)
  }

  /** The rows of one year have as many cells as the table's. */
  lemma RowsOfYearRectangular(t: Table, width: nat, y: int)
    requires Rectangular(t, width)
    ensures Rectangular(RowsOfYear(t, y), width)
  {
    var rows := RowsOfYear(t, y);
    RowsOfYearMembers(t, y);
    forall k | 0 <= k < |rows|
      ensures |rows[k].values| == width
    {
      assert rows[k] in rows;
    }
  }

  /** `sums` holds the column totals of `rows`. */
  ghost predicate TotalsOf(rows: Table, width: nat, sums: seq<real>)
  {
    && Rectangular(rows, width)
    && |sums| == width
    && forall c :: 0 <= c < width ==> sums[c] == Sum(Column(rows, c))
  }

  /** Running totals with one more row added cell by cell. */
  function AddCells(sums: seq<real>, row: Row): seq<real>
    requires |row.values| == |sums|
  {
    seq(|sums|, c requires 0 <= c < |sums| => sums[c] + row.values[c])
  }

  /** Adding a row's cells to the totals of some rows gives the totals of
      those rows followed by that row. */
  lemma TotalsSnoc(rows: Table, row: Row, width: nat, sums: seq<real>)
    requires TotalsOf(rows, width, sums) && |row.values| == width
    ensures TotalsOf(rows + [row], width, AddCells(sums, row))
  {
    var rows' := rows + [row];
    forall c | 0 <= c < width
      ensures AddCells(sums, row)[c] == Sum(Column(rows', c))
    {
      var xs := Column(rows', c);
      assert xs[..|xs| - 1] == Column(rows, c);
    }
  }

  /** Selecting the rows of a year commutes with growing the table by one row. */
  lemma RowsOfYearPrefix(t: Table, i: int, y: int)
    requires 0 <= i < |t|
    ensures RowsOfYear(t[..i + 1], y) == RowsOfYear(t[..i], y) + (if YearOf(t[i].month) == y then [t[i]] else [])
  {
    assert t[..i + 1][..i] == t[..i];
  }

  /** The number of rows of year `y` and the per-column totals over them. */
  method YearTotals(t: Table, width: nat, y: int) returns (sums: seq<real>, count: nat)
    requires Rectangular(t, width)
    ensures count == |RowsOfYear(t, y)|
    ensures TotalsOf(RowsOfYear(t, y), width, sums)
  {
    sums := seq(width, c => 0.0);
    count := 0;
    var i := 0;
    while i < |t|
      invariant 0 <= i <= |t|
      invariant count == |RowsOfYear(t[..i], y)|
      invariant TotalsOf(RowsOfYear(t[..i], y), width, sums)
    {
      RowsOfYearPrefix(t, i, y);
      if YearOf(t[i].month) == y {
        TotalsSnoc(RowsOfYear(t[..i], y), t[i], width, sums);
        sums := AddCells(sums, t[i]);
        count := count + 1;
      } else {
        assert RowsOfYear(t[..i + 1], y) == RowsOfYear(t[..i], y);
      }
      i := i + 1;
    }
    assert t[..|t|] == t;
  }

  /** The entry of year `y`, or nothing when the year has no rows. */
  method AverageOfYear(t: Table, width: nat, y: int) returns (e: Option<YearAverage>)
    requires Rectangular(t, width)
    ensures e.Some? <==> |RowsOfYear(t, y)| > 0
    ensures e.Some? ==> e.value.year == y && IsYearEntry(t, width, e.value)
  {
    var sums, count := YearTotals(t, width, y);
    if count == 0 {
      return None;
    }
    var means := seq(width, c requires 0 <= c < width => sums[c] / count as real);
    e := Some(YearAverage(y, means));
  }

  /** The averages for the years of the window before `y`: what the loop
      has built when it reaches year `y`. */
  ghost predicate AveragesBefore(t: Table, width: nat, endYear: int, y: int, r: seq<YearAverage>)
    requires Rectangular(t, width)
  {
    && (forall k :: 0 <= k < |r| ==> endYear - (WindowYears - 1) <= r[k].year < y)
    && (forall k :: 0 <= k < |r| ==> IsYearEntry(t, width, r[k]))
    && (forall y' :: endYear - (WindowYears - 1) <= y' < y && |RowsOfYear(t, y')| > 0 ==>
          exists k :: 0 <= k < |r| && r[k].year == y')
    && (forall k, l :: 0 <= k < l < |r| ==> r[k].year < r[l].year)
  }

  /** One turn of the loop: adding the entry of year `y`, when there is one,
      extends the averages to the years before `y + 1`. */
  lemma AveragesStep(t: Table, width: nat, endYear: int, y: int, r: seq<YearAverage>, e: Option<YearAverage>)
    requires Rectangular(t, width)
    requires endYear - (WindowYears - 1) <= y
    requires AveragesBefore(t, width, endYear, y, r)
    requires e.Some? <==> |RowsOfYear(t, y)| > 0
    requires e.Some? ==> e.value.year == y && IsYearEntry(t, width, e.value)
    ensures AveragesBefore(t, width, endYear, y + 1, if e.Some? then r + [e.value] else r)
  {
    if e.Some? {
      AveragesAppend(t, width, endYear, y, r, e.value);
    } else {
      forall y' | endYear - (WindowYears - 1) <= y' < y + 1 && |RowsOfYear(t, y')| > 0
        ensures exists k :: 0 <= k < |r| && r[k].year == y'
      {
        assert y' != y;
      }
    }
  }

  /** Appending the entry of year `y` extends the averages to the years
      before `y + 1`. */
  lemma AveragesAppend(t: Table, width: nat, endYear: int, y: int, r: seq<YearAverage>, e: YearAverage)
    requires Rectangular(t, width)
    requires endYear - (WindowYears - 1) <= y
    requires AveragesBefore(t, width, endYear, y, r)
    requires e.year == y && IsYearEntry(t, width, e)
    ensures AveragesBefore(t, width, endYear, y + 1, r + [e])
  {
    var r' := r + [e];
    forall k | 0 <= k < |r'|
      ensures endYear - (WindowYears - 1) <= r'[k].year < y + 1
      ensures IsYearEntry(t, width, r'[k])
    {
      if k < |r| {
        assert r'[k] == r[k];
      }
    }
    forall y' | endYear - (WindowYears - 1) <= y' < y + 1 && |RowsOfYear(t, y')| > 0
      ensures exists k :: 0 <= k < |r'| && r'[k].year == y'
    {
      if y' < y {
        var k :| 0 <= k < |r| && r[k].year == y';
        assert r'[k] == r[k];
      } else {
        assert r'[|r|] == e;
      }
    }
    forall k, l | 0 <= k < l < |r'|
      ensures r'[k].year < r'[l].year
    {
      assert r'[k] == r[k];
      if l < |r| {
        assert r'[l] == r[l];
      } else {
        assert r'[l] == e;
      }
    }
  }

  /** The loop of `main` over the last five years: years with no rows are
      skipped, every other year gets each column's mean. */
  method YearlyAverages(t: Table, width: nat, endYear: int) returns (r: seq<YearAverage>)
    requires Rectangular(t, width)
    ensures IsYearlyAverages(t, width, endYear, r)
  {
    r := [];
    var y := endYear - (WindowYears - 1);
    while y <= endYear
      invariant endYear - (WindowYears - 1) <= y <= endYear + 1
      invariant AveragesBefore(t, width, endYear, y, r)
    {
      var e := AverageOfYear(t, width, y);
      AveragesStep(t, width, endYear, y, r, e);
      if e.Some? {
        r := r + [e.value];
      }
      y := y + 1;
    }
  }
}
