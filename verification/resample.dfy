/** `fetch_monthly`: month-end resampling keeping the last value of each
    month, followed by a forward fill (`resample("ME").last().ffill()`). */
module Resampling {
  import opened Wrappers
  import opened Calendar
  import opened Series

  /** Observation `k` falls in month `m` and carries a value. */
  predicate Candidate(raw: seq<Obs>, m: int, k: int)
    requires 0 <= k < |raw|
  {
    MonthIndex(raw[k].date) == m && raw[k].value.Some?
  }

  /** Observation `k` comes no earlier than observation `j` once the data
      is sorted by date with a stable sort: a later day, or the same day and
      a later input position. */
  predicate NotBefore(raw: seq<Obs>, k: int, j: int)
    requires 0 <= k < |raw| && 0 <= j < |raw|
  {
    raw[j].date.day < raw[k].date.day || (raw[j].date.day == raw[k].date.day && j <= k)
  }

  /** Observation `k` is the value `.last()` keeps for month `m`: the
      latest observation of that month that is not missing. */
  ghost predicate IsLastOfMonth(raw: seq<Obs>, m: int, k: int)
  {
    && 0 <= k < |raw|
    && Candidate(raw, m, k)
    && forall j :: 0 <= j < |raw| && Candidate(raw, m, j) ==> NotBefore(raw, k, j)
  }

  /** The position of the latest non-missing observation of month `m` among
      the first `n` observations. */
  function LastIndex(raw: seq<Obs>, m: int, n: nat): (r: Option<nat>)
    requires n <= |raw|
    ensures r.Some? ==> r.value < n && Candidate(raw, m, r.value)
    ensures r.Some? ==> forall j :: 0 <= j < n && Candidate(raw, m, j) ==> NotBefore(raw, r.value, j)
    ensures r.None? <==> forall j :: 0 <= j < n ==> !Candidate(raw, m, j)
  {
    if n == 0 then None
    else
      var prev := LastIndex(raw, m, n - 1);
      if Candidate(raw, m, n - 1) && (prev.None? || raw[prev.value].date.day <= raw[n - 1].date.day)
      then Some(n - 1)
      else prev
  }

  /** The value `resample("ME").last()` gives month `m`: the last
      non-missing observation of the month, or missing if it has none. */
  function MonthLast(raw: seq<Obs>, m: int): (r: Option<real>)
    ensures r.None? <==> forall j :: 0 <= j < |raw| ==> !Candidate(raw, m, j)
    ensures r.Some? ==> exists k :: IsLastOfMonth(raw, m, k) && raw[k].value == r
  {
    match LastIndex(raw, m, |raw|)
    case None => None
    case Some(k) => raw[k].value
  }

  /** `resample("ME").last()`: one point per month from the month of the
      earliest timestamp to the month of the latest, whatever their values. */
  function MonthEndLast(raw: seq<Obs>): (s: Monthly)
    ensures |raw| == 0 ==> s == []
    ensures |raw| > 0 ==> |s| == Max(ObsMonths(raw)) - Min(ObsMonths(raw)) + 1
    ensures |raw| > 0 ==> s[0].month == Min(ObsMonths(raw))
    ensures Contiguous(s)
    ensures forall i :: 0 <= i < |s| ==> s[i].value == MonthLast(raw, s[i].month)
  {
    if |raw| == 0 then []
    else
      var lo := Min(ObsMonths(raw));
      var hi := Max(ObsMonths(raw));
      assert lo <= hi by { assert ObsMonths(raw)[0] <= hi; }
      MonthsFrom(raw, lo, hi - lo + 1)
  }

  /** `n` consecutive months from `lo`, each with its last value. */
  function MonthsFrom(raw: seq<Obs>, lo: int, n: nat): (s: Monthly)
    ensures |s| == n
    ensures forall i :: 0 <= i < n ==> s[i].month == lo + i
    ensures forall i :: 0 <= i < n ==> s[i].value == MonthLast(raw, s[i].month)
  {
    seq(n, i requires 0 <= i < n => Point(lo + i, MonthLast(raw, lo + i)))
  }

  /** Positions `lo..hi` of `s` all hold a missing value. */
  ghost predicate MissingBetween(s: Monthly, lo: int, hi: int)
  {
    forall k :: lo <= k <= hi && 0 <= k < |s| ==> s[k].value.None?
  }

  /** Position `j` is the nearest position at or before `i` that holds a
      value, and that value is `v`. */
  ghost predicate NearestValue(s: Monthly, j: int, i: int, v: real)
  {
    0 <= j <= i < |s| && s[j].value == Some(v) && MissingBetween(s, j + 1, i)
  }

  /** The forward-fill scan, carrying the last value seen so far. */
  function FillFrom(s: Monthly, carry: Option<real>): (r: Monthly)
    ensures |r| == |s|
    ensures forall i :: 0 <= i < |s| ==> r[i].month == s[i].month
  {
    if |s| == 0 then []
    else
      var v := if s[0].value.Some? then s[0].value else carry;
      [Point(s[0].month, v)] + FillFrom(s[1..], v)
  }

  /** `ffill()`: every missing value takes the nearest earlier value. */
  function ForwardFill(s: Monthly): Monthly
  {
    FillFrom(s, None)
  }

  /** `resample("ME").last().ffill()`. */
  function Resample(raw: seq<Obs>): Monthly
  {
    ForwardFill(MonthEndLast(raw))
  }

  /** `fetch_monthly` after the download: no series or an empty one gives an
      empty monthly series, anything else is resampled. */
  function FetchMonthly(fetched: Option<seq<Obs>>): (s: Monthly)
    ensures |s| == 0 <==> fetched.None? || |fetched.value| == 0
    ensures fetched.Some? ==> s == Resample(fetched.value)
  {
    match fetched
    case None => []
    case Some(raw) => Resample(raw)
  }

  /** The value the fill scan carries past the first position. */
  function CarryPast(s: Monthly, carry: Option<real>): Option<real>
    requires |s| > 0
  {
    if s[0].value.Some? then s[0].value else carry
  }

  /** Past the first position, the scan continues on the rest with the
      carried value. */
  lemma FillFromShift(s: Monthly, carry: Option<real>, i: int)
    requires 0 < i < |s|
    ensures FillFrom(s, carry)[i] == FillFrom(s[1..], CarryPast(s, carry))[i - 1]
  {
    assert FillFrom(s, carry) == [Point(s[0].month, CarryPast(s, carry))] + FillFrom(s[1..], CarryPast(s, carry));
  }

  /** Missing positions of a series seen from its second position on. */
  lemma MissingShift(s: Monthly, i: int)
    requires 0 < i < |s|
    ensures MissingBetween(s, 0, i) <==> s[0].value.None? && MissingBetween(s[1..], 0, i - 1)
  {
    assert forall k :: 1 <= k <= i ==> s[k] == s[1..][k - 1];
  }

  /** A nearest value found in the rest of a series is a nearest value of
      the whole series, one position further on. */
  lemma NearestShift(s: Monthly, j: int, i: int, w: real)
    requires 0 < i < |s|
    requires NearestValue(s[1..], j, i - 1, w)
    ensures NearestValue(s, j + 1, i, w)
  {
    assert forall k :: j + 2 <= k <= i ==> s[k] == s[1..][k - 1];
  }

  /** The fill scan leaves position `i` missing exactly when nothing is
      carried in and nothing up to `i` has a value. */
  lemma {:induction false} FillFromMissing(s: Monthly, carry: Option<real>, i: int)
    requires 0 <= i < |s|
    ensures FillFrom(s, carry)[i].value.None? <==> carry.None? && MissingBetween(s, 0, i)
    decreases i
  {
    if i > 0 {
      FillFromShift(s, carry, i);
      FillFromMissing(s[1..], CarryPast(s, carry), i - 1);
      MissingShift(s, i);
    }
  }

  /** A value the fill scan leaves at position `i` is the nearest value at
      or before `i`, or the carried value when there is none. */
  lemma {:induction false} FillFromNearest(s: Monthly, carry: Option<real>, i: int)
    requires 0 <= i < |s|
    requires FillFrom(s, carry)[i].value.Some?
    ensures (exists j :: NearestValue(s, j, i, FillFrom(s, carry)[i].value.value))
            || (carry == FillFrom(s, carry)[i].value && MissingBetween(s, 0, i))
    decreases i
  {
    var w := FillFrom(s, carry)[i].value.value;
    if i == 0 {
      if s[0].value.Some? {
        assert NearestValue(s, 0, 0, w);
      }
    } else {
      var t := s[1..];
      var v := CarryPast(s, carry);
      FillFromShift(s, carry, i);
      FillFromNearest(t, v, i - 1);
      MissingShift(s, i);
      var i1 := i - 1;
      if exists j :: NearestValue(t, j, i1, w) {
        var j :| NearestValue(t, j, i1, w);
        NearestShift(s, j, i, w);
      } else if s[0].value.Some? {
        assert NearestValue(s, 0, i, w);
      }
    }
  }

  /** Only the nearest value at or before `i` can be the nearest one. */
  lemma NearestValueUnique(s: Monthly, i: int, j1: int, v1: real, j2: int, v2: real)
    requires NearestValue(s, j1, i, v1) && NearestValue(s, j2, i, v2)
    ensures j1 == j2 && v1 == v2
  {
  }

  /** `ffill()` keeps the month index and length; a position is missing
      afterwards exactly when nothing at or before it held a value, and
      otherwise holds the nearest earlier value. */
  lemma ForwardFillSpec(s: Monthly, i: int)
    requires 0 <= i < |s|
    ensures |ForwardFill(s)| == |s| && ForwardFill(s)[i].month == s[i].month
    ensures ForwardFill(s)[i].value.None? <==> MissingBetween(s, 0, i)
    ensures forall j, v :: NearestValue(s, j, i, v) ==> ForwardFill(s)[i].value == Some(v)
    ensures ForwardFill(s)[i].value.Some? ==> exists j :: NearestValue(s, j, i, ForwardFill(s)[i].value.value)
  {
    FillFromMissing(s, None, i);
    if ForwardFill(s)[i].value.Some? {
      FillFromNearest(s, None, i);
    }
    var r := ForwardFill(s);
    forall j, v | NearestValue(s, j, i, v)
      ensures r[i].value == Some(v)
    {
      assert !MissingBetween(s, 0, i) by { assert s[j].value.Some?; }
      var j' :| NearestValue(s, j', i, r[i].value.value);
      NearestValueUnique(s, i, j, v, j', r[i].value.value);
    }
  }

  /** Filling a filled series changes nothing. */
  lemma ForwardFillIdempotent(s: Monthly)
    ensures ForwardFill(ForwardFill(s)) == ForwardFill(s)
  {
    var f := ForwardFill(s);
    var g := ForwardFill(f);
    forall i | 0 <= i < |s|
      ensures g[i] == f[i]
    {
      ForwardFillSpec(s, i);
      ForwardFillSpec(f, i);
      if f[i].value.Some? {
        assert NearestValue(f, i, i, f[i].value.value);
      } else {
        forall k | 0 <= k <= i
          ensures f[k].value.None?
        {
          ForwardFillSpec(s, k);
        }
      }
    }
  }

  /** Observation `k` is what a month `m` ends up holding after the fill:
      the last value of its own month, that month is `m` or earlier, and no
      later month up to `m` has a value of its own. */
  ghost predicate CarriedInto(raw: seq<Obs>, k: int, m: int)
  {
    && 0 <= k < |raw|
    && IsLastOfMonth(raw, MonthIndex(raw[k].date), k)
    && MonthIndex(raw[k].date) <= m
    && forall j :: 0 <= j < |raw| && raw[j].value.Some? && MonthIndex(raw[k].date) < MonthIndex(raw[j].date)
         ==> m < MonthIndex(raw[j].date)
  }

  /** A month has at most one last observation. */
  lemma LastOfMonthUnique(raw: seq<Obs>, m: int, k1: int, k2: int)
    requires IsLastOfMonth(raw, m, k1) && IsLastOfMonth(raw, m, k2)
    ensures k1 == k2
  {
    assert NotBefore(raw, k1, k2) && NotBefore(raw, k2, k1);
  }

  /** The resampled index: empty exactly for empty input, otherwise every
      month from that of the earliest timestamp to that of the latest, in
      ascending order and without gaps. */
  lemma ResampleIndex(raw: seq<Obs>)
    ensures |Resample(raw)| == 0 <==> |raw| == 0
    ensures Contiguous(Resample(raw))
    ensures |raw| > 0 ==> Resample(raw)[0].month == Min(ObsMonths(raw))
    ensures |raw| > 0 ==> Resample(raw)[|Resample(raw)| - 1].month == Max(ObsMonths(raw))
  {
    var s := MonthEndLast(raw);
    assert forall i :: 0 <= i < |s| ==> Resample(raw)[i].month == s[i].month;
  }

  /** Every fetched series is gap-free, the empty one included. */
  lemma FetchMonthlyContiguous(fetched: Option<seq<Obs>>)
    ensures Contiguous(FetchMonthly(fetched))
  {
    if fetched.Some? {
      ResampleIndex(fetched.value);
    }
  }

  /** Every observation's month lies inside the resampled span. */
  lemma ObsInSpan(raw: seq<Obs>, k: int)
    requires 0 <= k < |raw|
    ensures MonthEndLast(raw)[0].month <= MonthIndex(raw[k].date) < MonthEndLast(raw)[0].month + |MonthEndLast(raw)|
  {
    assert ObsMonths(raw)[k] == MonthIndex(raw[k].date);
  }

  /** A month of `resample().last()` is missing exactly when no
      observation with a value falls in it. */
  lemma MonthEndLastMissing(raw: seq<Obs>, p: int, k: int)
    requires 0 <= p < |MonthEndLast(raw)| && 0 <= k < |raw|
    requires raw[k].value.Some? && MonthIndex(raw[k].date) == MonthEndLast(raw)[p].month
    ensures MonthEndLast(raw)[p].value.Some?
  {
    assert Candidate(raw, MonthEndLast(raw)[p].month, k);
  }

  /** A resampled month that holds a value has an observation with a
      value in that month or an earlier one. */
  lemma ResampleHasEarlierValue(raw: seq<Obs>, i: int)
    requires 0 <= i < |Resample(raw)|
    requires Resample(raw)[i].value.Some?
    ensures exists k :: 0 <= k < |raw| && raw[k].value.Some? && MonthIndex(raw[k].date) <= Resample(raw)[i].month
  {
    var s := MonthEndLast(raw);
    ForwardFillSpec(s, i);
    var j :| NearestValue(s, j, i, Resample(raw)[i].value.value);
    assert s[j].value == MonthLast(raw, s[j].month);
    var k :| IsLastOfMonth(raw, s[j].month, k);
    assert s[j].month <= s[i].month;
  }

  /** A resampled month left missing has no observation with a value in
      that month or an earlier one. */
  lemma ResampleMissingHasNoEarlierValue(raw: seq<Obs>, i: int, k: int)
    ensures 0 <= i < |Resample(raw)| && 0 <= k < |raw| &&
            Resample(raw)[i].value.None? && raw[k].value.Some? ==>
              Resample(raw)[i].month < MonthIndex(raw[k].date)
  {
    if 0 <= i < |Resample(raw)| && 0 <= k < |raw| &&
       Resample(raw)[i].value.None? && raw[k].value.Some? {
      var s := MonthEndLast(raw);
      ForwardFillSpec(s, i);
      var mk := MonthIndex(raw[k].date);
      ObsInSpan(raw, k);
      if mk <= s[i].month {
        MonthEndLastMissing(raw, mk - s[0].month, k);
        assert false;
      }
    }
  }

  /** A resampled month is missing exactly when no observation with a
      value falls in that month or an earlier one: the fill cannot reach
      the left edge. */
  lemma ResampleMissingAt(raw: seq<Obs>, i: int)
    requires 0 <= i < |Resample(raw)|
    ensures Resample(raw)[i].value.None? <==>
              forall k :: 0 <= k < |raw| && raw[k].value.Some? ==> Resample(raw)[i].month < MonthIndex(raw[k].date)
  {
    if Resample(raw)[i].value.None? {
      forall k | 0 <= k < |raw| && raw[k].value.Some?
        ensures Resample(raw)[i].month < MonthIndex(raw[k].date)
      {
        ResampleMissingHasNoEarlierValue(raw, i, k);
      }
    } else {
      ResampleHasEarlierValue(raw, i);
    }
  }

  /** No observation with a value falls strictly after the month holding
      the nearest value and at or before month `i`. */
  lemma NoValueAfterNearest(raw: seq<Obs>, j: int, i: int, v: real, k: int)
    ensures NearestValue(MonthEndLast(raw), j, i, v) && 0 <= k < |raw| && raw[k].value.Some? &&
            MonthEndLast(raw)[j].month < MonthIndex(raw[k].date) ==>
              MonthEndLast(raw)[i].month < MonthIndex(raw[k].date)
  {
    if NearestValue(MonthEndLast(raw), j, i, v) && 0 <= k < |raw| && raw[k].value.Some? &&
       MonthEndLast(raw)[j].month < MonthIndex(raw[k].date) {
      var s := MonthEndLast(raw);
      var mk := MonthIndex(raw[k].date);
      ObsInSpan(raw, k);
      if mk <= s[i].month {
        MonthEndLastMissing(raw, mk - s[0].month, k);
        assert false;
      }
    }
  }

  /** A resampled month that holds a value holds the last value of the
      latest earlier-or-same month that had one. */
  lemma ResampleCarriedAt(raw: seq<Obs>, i: int)
    requires 0 <= i < |Resample(raw)|
    requires Resample(raw)[i].value.Some?
    ensures exists k :: CarriedInto(raw, k, Resample(raw)[i].month) && raw[k].value == Resample(raw)[i].value
  {
    var s := MonthEndLast(raw);
    ForwardFillSpec(s, i);
    var v := Resample(raw)[i].value.value;
    var j :| NearestValue(s, j, i, v);
    assert s[j].value == MonthLast(raw, s[j].month);
    var k :| IsLastOfMonth(raw, s[j].month, k) && raw[k].value == Some(v);
    forall k' | 0 <= k' < |raw| && raw[k'].value.Some? && MonthIndex(raw[k].date) < MonthIndex(raw[k'].date)
      ensures s[i].month < MonthIndex(raw[k'].date)
    {
      NoValueAfterNearest(raw, j, i, v, k');
    }
    assert s[j].month <= s[i].month;
    assert CarriedInto(raw, k, s[i].month);
  }

  /** Conversely, the observation carried into a month is the value the
      month holds. */
  lemma ResampleCarriedValueAt(raw: seq<Obs>, i: int, k: int)
    ensures 0 <= i < |Resample(raw)| && CarriedInto(raw, k, Resample(raw)[i].month) ==>
              Resample(raw)[i].value == raw[k].value
  {
    if 0 <= i < |Resample(raw)| && CarriedInto(raw, k, Resample(raw)[i].month) {
      var s := MonthEndLast(raw);
      var r := Resample(raw);
      var lo := s[0].month;
      var m := r[i].month;
      var mk := MonthIndex(raw[k].date);
      ObsInSpan(raw, k);
      var j := mk - lo;
      assert s[j].month == mk;
      assert MonthLast(raw, mk).Some? by { assert Candidate(raw, mk, k); }
      var k' :| IsLastOfMonth(raw, mk, k') && raw[k'].value == MonthLast(raw, mk);
      LastOfMonthUnique(raw, mk, k, k');
      forall p | j + 1 <= p <= i
        ensures s[p].value.None?
      {
        if s[p].value.Some? {
          assert false;
        }
      }
      assert NearestValue(s, j, i, raw[k].value.value);
      ForwardFillSpec(s, i);
    }
  }
  /** Every resampled month is missing exactly when no observation with a
      value falls in it or an earlier month: the fill never reaches the left
      edge. */
  lemma ResampleMissing(raw: seq<Obs>)
    ensures forall i :: 0 <= i < |Resample(raw)| ==>
              (Resample(raw)[i].value.None? <==>
                 forall k :: 0 <= k < |raw| && raw[k].value.Some? ==> Resample(raw)[i].month < MonthIndex(raw[k].date))
  {
    forall i | 0 <= i < |Resample(raw)|
      ensures Resample(raw)[i].value.None? <==>
                forall k :: 0 <= k < |raw| && raw[k].value.Some? ==> Resample(raw)[i].month < MonthIndex(raw[k].date)
    {
      ResampleMissingAt(raw, i);
    }
  }

  /** Every resampled month with a value holds the last value of the latest
      month at or before it that had one, and that observation is the only
      one it can hold. */
  lemma ResampleCarried(raw: seq<Obs>)
    ensures forall i :: 0 <= i < |Resample(raw)| && Resample(raw)[i].value.Some? ==>
              exists k :: CarriedInto(raw, k, Resample(raw)[i].month) && raw[k].value == Resample(raw)[i].value
    ensures forall i, k :: 0 <= i < |Resample(raw)| && CarriedInto(raw, k, Resample(raw)[i].month) ==>
              Resample(raw)[i].value == raw[k].value
  {
    forall i | 0 <= i < |Resample(raw)| && Resample(raw)[i].value.Some?
      ensures exists k :: CarriedInto(raw, k, Resample(raw)[i].month) && raw[k].value == Resample(raw)[i].value
    {
      ResampleCarriedAt(raw, i);
    }
    forall i, k | 0 <= i < |Resample(raw)| && CarriedInto(raw, k, Resample(raw)[i].month)
      ensures Resample(raw)[i].value == raw[k].value
    {
      ResampleCarriedValueAt(raw, i, k);
    }
  }
}
