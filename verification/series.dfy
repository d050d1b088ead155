/** Raw observations, monthly points, and the month span of a sequence. */
module Series {
  import opened Wrappers
  import opened Calendar

  /** One observation as the data service delivers it; `None` is a NaN value. */
  datatype Obs = Obs(date: Date, value: Option<real>)

  /** One row of a month-end series: a month index and a possibly missing value. */
  datatype Point = Point(month: int, value: Option<real>)

  type Monthly = seq<Point>

  /** One point per month with no month left out: the index pandas builds
      with `resample("ME")`. */
  ghost predicate Contiguous(s: Monthly)
  {
    forall i :: 0 <= i < |s| ==> s[i].month == s[0].month + i
  }

  /** The smallest element of a non-empty sequence. */
  function Min(xs: seq<int>): (r: int)
    requires |xs| > 0
    ensures r in xs
    ensures forall i :: 0 <= i < |xs| ==> r <= xs[i]
  {
    if |xs| == 1 then xs[0]
    else
      var rest := Min(xs[1..]);
      assert forall i :: 1 <= i < |xs| ==> xs[i] == xs[1..][i - 1];
      if xs[0] <= rest then xs[0] else rest
  }

  /** The largest element of a non-empty sequence. */
  function Max(xs: seq<int>): (r: int)
    requires |xs| > 0
    ensures r in xs
    ensures forall i :: 0 <= i < |xs| ==> xs[i] <= r
  {
    if |xs| == 1 then xs[0]
    else
      var rest := Max(xs[1..]);
      assert forall i :: 1 <= i < |xs| ==> xs[i] == xs[1..][i - 1];
      if xs[0] >= rest then xs[0] else rest
  }

  /** The month indices of raw observations, in input order. */
  function ObsMonths(raw: seq<Obs>): seq<int>
  {
    seq(|raw|, i requires 0 <= i < |raw| => MonthIndex(raw[i].date))
  }

  /** The month indices of a monthly series, in order. */
  function PointMonths(s: Monthly): seq<int>
  {
    seq(|s|, i requires 0 <= i < |s| => s[i].month)
  }
}
