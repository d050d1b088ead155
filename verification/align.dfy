/** `pd.concat(columns, axis=1).dropna()`: an outer join on the month index
    followed by dropping every row with a missing cell. */
module Alignment {
  import opened Wrappers
  import opened Series

  /** One row of the joined table: its month and one value per column, in
      column order. */
  datatype Row = Row(month: int, values: seq<real>)

  type Table = seq<Row>

  /** The value a column holds at month `m` once aligned on the month
      index: that of its first point labelled `m`, or missing when it has
      no such point. */
  function ValueAt(s: Monthly, m: int): (r: Option<real>)
    ensures r.Some? ==> exists k :: 0 <= k < |s| && s[k].month == m && s[k].value == r
    ensures forall k :: 0 <= k < |s| && s[k].month == m && (forall j :: 0 <= j < k ==> s[j].month != m) ==> r == s[k].value
  {
    if |s| == 0 then None
    else if s[0].month == m then s[0].value
    else
      var r := ValueAt(s[1..], m);
      assert forall k :: 1 <= k < |s| ==> s[k] == s[1..][k - 1];
      r
  }

  /** Every column has a value at month `m`: the row survives `dropna()`. */
  predicate Complete(cols: seq<Monthly>, m: int)
  {
    forall c :: 0 <= c < |cols| ==> ValueAt(cols[c], m).Some?
  }

  /** The row of month `m`, read from every column. */
  function RowAt(cols: seq<Monthly>, m: int): (row: Row)
    requires Complete(cols, m)
    ensures row.month == m && |row.values| == |cols|
    ensures forall c :: 0 <= c < |cols| ==> Some(row.values[c]) == ValueAt(cols[c], m)
  {
    Row(m, seq(|cols|, c requires 0 <= c < |cols| => ValueAt(cols[c], m).value))
  }

  /** Months strictly increase down the table. */
  ghost predicate Ascending(t: Table)
  {
    forall k, l :: 0 <= k < l < |t| ==> t[k].month < t[l].month
  }

  /** Each row has a cell for every column, holding that column's value at
      the row's month. */
  ghost predicate RowsFrom(cols: seq<Monthly>, t: Table)
  {
    forall k :: 0 <= k < |t| ==>
      Complete(cols, t[k].month) && |t[k].values| == |cols|
      && forall c :: 0 <= c < |cols| ==> Some(t[k].values[c]) == ValueAt(cols[c], t[k].month)
  }

  /** The complete rows among months `lo..hi`, in ascending order. */
  function JoinRange(cols: seq<Monthly>, lo: int, hi: int): Table
    decreases hi - lo + 1
  {
    if lo > hi then []
    else
      var rest := JoinRange(cols, lo + 1, hi);
      if Complete(cols, lo) then [RowAt(cols, lo)] + rest else rest
  }

  /** Every row of the range is complete, read from the columns, and
      labelled with a month of the range. */
  lemma {:induction false} JoinRangeRows(cols: seq<Monthly>, lo: int, hi: int)
    ensures RowsFrom(cols, JoinRange(cols, lo, hi))
    ensures forall k :: 0 <= k < |JoinRange(cols, lo, hi)| ==> lo <= JoinRange(cols, lo, hi)[k].month <= hi
    decreases hi - lo + 1
  {
    if lo <= hi {
      JoinRangeRows(cols, lo + 1, hi);
    }
  }

  /** The rows of the range ascend by month. */
  lemma {:induction false} JoinRangeAscending(cols: seq<Monthly>, lo: int, hi: int)
    ensures Ascending(JoinRange(cols, lo, hi))
    decreases hi - lo + 1
  {
    if lo <= hi {
      JoinRangeAscending(cols, lo + 1, hi);
      JoinRangeRows(cols, lo + 1, hi);
    }
  }

  /** Every complete month of the range has a row. */
  lemma {:induction false} JoinRangeCovers(cols: seq<Monthly>, lo: int, hi: int, m: int)
    requires lo <= m <= hi && Complete(cols, m)
    ensures exists k :: 0 <= k < |JoinRange(cols, lo, hi)| && JoinRange(cols, lo, hi)[k].month == m
    decreases hi - lo + 1
  {
    var t := JoinRange(cols, lo, hi);
    var rest := JoinRange(cols, lo + 1, hi);
    if m == lo {
      assert t[0].month == m;
    } else {
      JoinRangeCovers(cols, lo + 1, hi, m);
      var k :| 0 <= k < |rest| && rest[k].month == m;
      if Complete(cols, lo) {
        assert t[k + 1].month == m;
      } else {
        assert t[k].month == m;
      }
    }
  }

  /** `concat` then `dropna`: a month is in the table exactly when every
      column has a value there; cells hold the columns' values unchanged;
      rows ascend by month. */
  function Join(cols: seq<Monthly>): (t: Table)
    requires |cols| > 0
    ensures Ascending(t) && RowsFrom(cols, t)
    ensures forall m :: Complete(cols, m) ==> exists k :: 0 <= k < |t| && t[k].month == m
  {
    var first := cols[0];
    if |first| == 0 then []
    else
      var lo := Min(PointMonths(first));
      var hi := Max(PointMonths(first));
      assert forall m :: Complete(cols, m) ==> lo <= m <= hi by {
        forall m | Complete(cols, m)
          ensures lo <= m <= hi
        {
          assert ValueAt(cols[0], m).Some?;
          var k :| 0 <= k < |first| && first[k].month == m;
          assert PointMonths(first)[k] == m;
        }
      }
      JoinRangeRows(cols, lo, hi);
      JoinRangeAscending(cols, lo, hi);
      assert forall m :: Complete(cols, m) ==> exists k :: 0 <= k < |JoinRange(cols, lo, hi)| && JoinRange(cols, lo, hi)[k].month == m by {
        forall m | Complete(cols, m)
          ensures exists k :: 0 <= k < |JoinRange(cols, lo, hi)| && JoinRange(cols, lo, hi)[k].month == m
        {
          JoinRangeCovers(cols, lo, hi, m);
        }
      }
      JoinRange(cols, lo, hi)
  }

  /** A column with no points leaves the joined table with no rows. */
  lemma EmptyColumnEmptiesJoin(cols: seq<Monthly>, c: int)
    requires 0 <= c < |cols| && |cols[c]| == 0
    ensures Join(cols) == []
  {
    forall m
      ensures !Complete(cols, m)
    {
      assert ValueAt(cols[c], m).None?;
    }
  }
}
