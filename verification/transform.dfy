/** `pct_change(periods, fill_method=None) * 100` on a monthly series. */
module Transform {
  import opened Wrappers
  import opened Calendar
  import opened Series

  /** The lag of the year-over-year changes taken for inflation and the
      Nasdaq return. */
  const YearOverYear: nat := 12

  /** `p` percent is the change that takes `base` to `current`. */
  predicate IsChange(current: real, base: real, p: real)
  {
    current == base * (1.0 + p / 100.0)
  }

  /** The change from `base` to `current` in percent; missing when either
      side is missing or the base is zero. */
  function PercentChange(current: Option<real>, base: Option<real>): (r: Option<real>)
    ensures r.Some? <==> current.Some? && base.Some? && base.value != 0.0
    ensures r.Some? ==> IsChange(current.value, base.value, r.value)
  {
    if current.Some? && base.Some? && base.value != 0.0
    then Some((current.value / base.value - 1.0) * 100.0)
    else None
  }

  /** Each position compared with the position `periods` earlier; no
      missing value is filled before comparing. */
  function PctChange(s: Monthly, periods: nat): (r: Monthly)
    ensures |r| == |s|
    ensures forall i :: 0 <= i < |s| ==> r[i].month == s[i].month
    ensures forall i :: 0 <= i < |s| && i < periods ==> r[i].value.None?
    ensures forall i :: periods <= i < |s| ==>
              (r[i].value.Some? <==> s[i].value.Some? && s[i - periods].value.Some? && s[i - periods].value.value != 0.0)
    ensures forall i :: periods <= i < |s| && r[i].value.Some? && s[i].value.Some? && s[i - periods].value.Some? ==>
              IsChange(s[i].value.value, s[i - periods].value.value, r[i].value.value)
  {
    seq(|s|, i requires 0 <= i < |s| =>
      Point(s[i].month, if i < periods then None else PercentChange(s[i].value, s[i - periods].value)))
  }

  /** On a gap-free monthly index the value twelve positions back belongs
      to the same calendar month of the previous year. */
  lemma YearOverYearAligned(s: Monthly, i: int)
    requires Contiguous(s)
    requires YearOverYear <= i < |s|
    ensures YearOf(s[i - YearOverYear].month) == YearOf(s[i].month) - 1
    ensures MonthOf(s[i - YearOverYear].month) == MonthOf(s[i].month)
  {
    assert s[i - YearOverYear].month == s[i].month - 12;
    TwelveBackIsYearBefore(s[i].month);
  }

  /** The change keeps a gap-free index gap-free. */
  lemma PctChangeContiguous(s: Monthly, periods: nat)
    requires Contiguous(s)
    ensures Contiguous(PctChange(s, periods))
  {
  }

  /** A positive change means the value rose against a positive base, and
      a rise against a positive base gives a positive change. */
  lemma PctChangeSign(s: Monthly, periods: nat, i: int)
    requires periods <= i < |s|
    requires PctChange(s, periods)[i].value.Some?
    requires s[i - periods].value.value > 0.0
    ensures PctChange(s, periods)[i].value.value > 0.0 <==> s[i].value.value > s[i - periods].value.value
  {
    var b := s[i - periods].value.value;
    var p := PctChange(s, periods)[i].value.value;
    assert IsChange(s[i].value.value, b, p);
    assert s[i].value.value == b + b * p / 100.0;
  }
}
