/** What the stages give on small concrete inputs. */
module Scenarios {
  import opened Wrappers
  import opened Calendar
  import opened Series
  import opened Resampling
  import opened Transform
  import opened Alignment

  /** January and February 2024 as month indices. */
  const Jan2024: int := 2024 * 12
  const Feb2024: int := 2024 * 12 + 1

  /** Column `a` has January and February, column `b` only February: the
      join keeps February alone, with both columns' values. */
  lemma JoinExample()
    ensures Join([[Point(Jan2024, Some(1.0)), Point(Feb2024, Some(2.0))], [Point(Feb2024, Some(5.0))]])
            == [Row(Feb2024, [2.0, 5.0])]
  {
    var a := [Point(Jan2024, Some(1.0)), Point(Feb2024, Some(2.0))];
    var b := [Point(Feb2024, Some(5.0))];
    var cols := [a, b];
    var t := Join(cols);
    assert ValueAt(a, Feb2024) == Some(2.0) by { assert a[0].month != Feb2024; }
    assert ValueAt(b, Feb2024) == Some(5.0);
    assert Complete(cols, Feb2024) by { assert cols[0] == a && cols[1] == b; }
    var k :| 0 <= k < |t| && t[k].month == Feb2024;
    forall l | 0 <= l < |t|
      ensures t[l].month == Feb2024
    {
      assert ValueAt(cols[1], t[l].month).Some?;
    }
    assert |t| == 1 by {
      if |t| > 1 {
        assert false;
      }
    }
    assert t[0].values[0] == 2.0 && t[0].values[1] == 5.0;
    assert t[0].values == [2.0, 5.0];
  }

  /** Monthly CPI with a gap across most of 2020. */
  const CpiRaw: seq<Obs> := [
    Obs(Date(2020, 1, 1), Some(100.0)),
    Obs(Date(2020, 2, 1), Some(101.0)),
    Obs(Date(2021, 1, 1), Some(105.0)),
    Obs(Date(2021, 2, 1), Some(106.0))]

  /** The month index of each CPI observation. */
  lemma CpiRawMonths()
    ensures ObsMonths(CpiRaw) == [24240, 24241, 24252, 24253]
  {
    assert MonthIndex(CpiRaw[0].date) == 24240;
    assert MonthIndex(CpiRaw[1].date) == 24241;
    assert MonthIndex(CpiRaw[2].date) == 24252;
    assert MonthIndex(CpiRaw[3].date) == 24253;
  }

  /** Each observation is the only one, hence the last, of its month. */
  lemma CpiLastOfMonths()
    ensures IsLastOfMonth(CpiRaw, 24240, 0)
    ensures IsLastOfMonth(CpiRaw, 24241, 1)
    ensures IsLastOfMonth(CpiRaw, 24252, 2)
  {
    CpiRawMonths();
    assert forall k :: 0 <= k < 4 ==> MonthIndex(CpiRaw[k].date) == ObsMonths(CpiRaw)[k];
  }

  /** February 2020 is carried into every month up to December 2020. */
  lemma CpiCarriedFebruary(m: int)
    requires 24241 <= m < 24252
    ensures CarriedInto(CpiRaw, 1, m)
  {
    CpiLastOfMonths();
    CpiRawMonths();
    assert forall k :: 0 <= k < 4 ==> MonthIndex(CpiRaw[k].date) == ObsMonths(CpiRaw)[k];
  }

  /** January 2020 holds its own value, and so does January 2021. */
  lemma CpiCarriedJanuaries()
    ensures CarriedInto(CpiRaw, 0, 24240)
    ensures CarriedInto(CpiRaw, 2, 24252)
  {
    CpiLastOfMonths();
    CpiRawMonths();
    assert forall k :: 0 <= k < 4 ==> MonthIndex(CpiRaw[k].date) == ObsMonths(CpiRaw)[k];
  }

  /** The resampled CPI runs over the fourteen months of January 2020 to
      February 2021. */
  lemma CpiSpan()
    ensures |Resample(CpiRaw)| == 14
    ensures Resample(CpiRaw)[0].month == 24240
    ensures forall i :: 0 <= i < 14 ==> Resample(CpiRaw)[i].month == 24240 + i
  {
    CpiRawMonths();
    var months := ObsMonths(CpiRaw);
    assert Min(months) == 24240 by { assert Min(months) in months; assert Min(months) <= months[0]; }
    assert Max(months) == 24253 by { assert Max(months) in months; assert months[3] <= Max(months); }
    ResampleIndex(CpiRaw);
  }

  /** Resampling fills March to December 2020 with February's 101. */
  lemma CpiForwardFilled()
    ensures |Resample(CpiRaw)| == 14
    ensures forall i :: 2 <= i < 12 ==> Resample(CpiRaw)[i].value == Some(101.0)
  {
    CpiSpan();
    forall i | 2 <= i < 12
      ensures Resample(CpiRaw)[i].value == Some(101.0)
    {
      CpiCarriedFebruary(Resample(CpiRaw)[i].month);
      ResampleCarriedValueAt(CpiRaw, i, 1);
    }
  }

  /** The year-over-year change in January 2021 compares 105 with January
      2020's 100, twelve positions back: five percent. */
  lemma CpiYearOverYear()
    ensures |Resample(CpiRaw)| == 14
    ensures PctChange(Resample(CpiRaw), YearOverYear)[12].value == Some(5.0)
  {
    CpiSpan();
    CpiCarriedJanuaries();
    ResampleCarriedValueAt(CpiRaw, 0, 0);
    ResampleCarriedValueAt(CpiRaw, 12, 2);
  }
}
