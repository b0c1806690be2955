/**
 * The holiday analysis: the releases dated within three days of one of five
 * 2023 holidays, and their Hours Viewed summed per release date.
 */
module Holidays {
  import opened Records
  import opened Grouping
  import Calendar
  import opened Wrappers

  /** New Year's Day, Valentine's Day, Independence Day, Halloween and
      Christmas Day of 2023. */
  const HolidayCalendarDates: seq<Calendar.CivilDate> := [
    Calendar.Date(2023, 1, 1), Calendar.Date(2023, 2, 14), Calendar.Date(2023, 7, 4),
    Calendar.Date(2023, 10, 31), Calendar.Date(2023, 12, 25)
  ]

  /** The same holidays as day numbers. */
  const Holidays2023: seq<int> := [19358, 19402, 19542, 19661, 19716]

  lemma HolidayDayNumbers(k: nat)
    requires k < 5
    ensures Holidays2023[k] == Calendar.DayNumber(HolidayCalendarDates[k])
  {
    var date := HolidayCalendarDates[k];
    Calendar.DayNumberIn2023(date.month, date.day);
  }

  /** The day difference lies in range(-3, 4): from three days before the
      holiday up to and including three days after it. */
  predicate WithinThreeDays(day: int, holiday: int) {
    -3 <= day - holiday < 4
  }

  /** Some holiday lies within three days of the day. */
  predicate NearHoliday(day: int) {
    exists h | h in Holidays2023 :: WithinThreeDays(day, h)
  }

  /** The holidays are far enough apart that a day is near at most one. */
  lemma WindowsDoNotOverlap(day: int, h1: int, h2: int)
    requires h1 in Holidays2023 && h2 in Holidays2023
    requires WithinThreeDays(day, h1) && WithinThreeDays(day, h2)
    ensures h1 == h2
  {
  }

  /** Both ends of the window belong to it: Christmas 2023 counts releases
      from 22 December to 28 December, but not 21 or 29 December. */
  lemma ChristmasWindow()
    ensures NearHoliday(Calendar.DayNumber(Calendar.Date(2023, 12, 22)))
    ensures NearHoliday(Calendar.DayNumber(Calendar.Date(2023, 12, 28)))
    ensures !NearHoliday(Calendar.DayNumber(Calendar.Date(2023, 12, 21)))
    ensures !NearHoliday(Calendar.DayNumber(Calendar.Date(2023, 12, 29)))
  {
    var christmas := Holidays2023[4];
    assert christmas in Holidays2023;
    assert WithinThreeDays(19713, christmas) && WithinThreeDays(19719, christmas);
    Calendar.DayNumberIn2023(12, 22);
    Calendar.DayNumberIn2023(12, 28);
    Calendar.DayNumberIn2023(12, 21);
    Calendar.DayNumberIn2023(12, 29);
  }

  /** The day is a date near a holiday; NaT is near none, since every
      comparison with it fails. */
  predicate NearHolidayDay(day: Option<int>) {
    day.Some? && NearHoliday(day.value)
  }

  /** The row passes the holiday mask. */
  predicate ReleasedNearHoliday(r: Record) {
    NearHolidayDay(ReleaseDay(r))
  }

  /** holiday_releases: the rows released near a holiday, in table order. */
  function HolidayReleases(rows: seq<Record>): seq<Record> {
    Filter(rows, ReleasedNearHoliday)
  }

  /** Every day from three days before the first holiday to three days after
      the last, in ascending order. */
  const CandidateDays: seq<Option<int>> :=
    seq(Holidays2023[4] - Holidays2023[0] + 7, i => Some(Holidays2023[0] - 3 + i))

  /** holiday_viewership: the Hours Viewed of the holiday releases summed per
      release date, dates ascending. */
  function HolidayViewership(rows: seq<Record>): seq<(Option<int>, real)> {
    GroupSum(HolidayReleases(rows), ReleaseDay, CandidateDays)
  }

  /** A holiday release's hours for a date are those of the whole table when
      the date is near a holiday, and there are none otherwise. */
  lemma {:induction false} HolidayHoursOfDay(rows: seq<Record>, day: Option<int>)
    ensures HoursWhere(HolidayReleases(rows), ReleaseDay, day) ==
      (if NearHolidayDay(day) then HoursWhere(rows, ReleaseDay, day) else 0.0)
  {
    if rows != [] {
      var init, last := rows[..|rows| - 1], rows[|rows| - 1];
      HolidayHoursOfDay(init, day);
      var kept := HolidayReleases(init);
      if ReleasedNearHoliday(last) {
        var k := kept + [last];
        assert k[..|k| - 1] == kept;
        assert HolidayReleases(rows) == k;
        assert HoursWhere(k, ReleaseDay, day) ==
          HoursWhere(kept, ReleaseDay, day) + (if ReleaseDay(last) == day then last.hoursViewed else 0.0);
        assert HoursWhere(rows, ReleaseDay, day) ==
          HoursWhere(init, ReleaseDay, day) + (if ReleaseDay(last) == day then last.hoursViewed else 0.0);
      } else {
        assert HolidayReleases(rows) == kept + [] == kept;
        assert NearHolidayDay(day) ==> ReleaseDay(last) != day;
        assert HoursWhere(rows, ReleaseDay, day) ==
          HoursWhere(init, ReleaseDay, day) + (if ReleaseDay(last) == day then last.hoursViewed else 0.0);
      }
    }
  }

  /** The same for the number of releases on the date. */
  lemma {:induction false} HolidayReleasesOfDay(rows: seq<Record>, day: Option<int>)
    ensures CountWhere(HolidayReleases(rows), ReleaseDay, day) ==
      (if NearHolidayDay(day) then CountWhere(rows, ReleaseDay, day) else 0)
  {
    if rows != [] {
      var init, last := rows[..|rows| - 1], rows[|rows| - 1];
      HolidayReleasesOfDay(init, day);
      var kept := HolidayReleases(init);
      if ReleasedNearHoliday(last) {
        var k := kept + [last];
        assert k[..|k| - 1] == kept;
        assert HolidayReleases(rows) == k;
        assert CountWhere(k, ReleaseDay, day) ==
          CountWhere(kept, ReleaseDay, day) + (if ReleaseDay(last) == day then 1 else 0);
      } else {
        assert HolidayReleases(rows) == kept + [] == kept;
        assert NearHolidayDay(day) ==> ReleaseDay(last) != day;
      }
    }
  }

  /** Every day near a holiday is a candidate day. */
  lemma NearHolidayIsCandidate(day: Option<int>)
    requires NearHolidayDay(day)
    ensures day in CandidateDays
  {
    var h :| h in Holidays2023 && WithinThreeDays(day.value, h);
    assert CandidateDays[day.value - Holidays2023[0] + 3] == day;
  }

  lemma CandidateDaysAscendAndCover(rows: seq<Record>)
    ensures forall i, j | 0 <= i < j < |CandidateDays| :: NumberBefore(CandidateDays[i], CandidateDays[j])
    ensures Distinct(CandidateDays)
    ensures Covers(HolidayReleases(rows), ReleaseDay, CandidateDays)
  {
    var kept := HolidayReleases(rows);
    forall i | 0 <= i < |kept|
      ensures ReleaseDay(kept[i]) in CandidateDays
    {
      assert kept[i] in kept;
      NearHolidayIsCandidate(ReleaseDay(kept[i]));
    }
  }

  /** A date has an entry in holiday_viewership exactly when it is near a
      holiday and some title was released that day; the entry holds the
      Hours Viewed of all titles released that day. */
  lemma HolidayViewershipEntry(rows: seq<Record>, p: (Option<int>, real))
    ensures p in HolidayViewership(rows) <==>
      NearHolidayDay(p.0)
      && (exists i :: 0 <= i < |rows| && ReleaseDay(rows[i]) == p.0)
      && p.1 == HoursWhere(rows, ReleaseDay, p.0)
  {
    HolidayHoursOfDay(rows, p.0);
    HolidayReleasesOfDay(rows, p.0);
    CountWhereOccurs(rows, ReleaseDay, p.0);
    if NearHolidayDay(p.0) {
      NearHolidayIsCandidate(p.0);
    }
  }

  /** One entry per date near a holiday on which some title was released, in
      ascending date order, holding the Hours Viewed of every title released
      that day; undated titles take no part, and the entries add up to the
      total of the holiday releases. */
  lemma HolidayViewershipSpec(rows: seq<Record>)
    ensures var r := HolidayViewership(rows);
      && (forall i, j | 0 <= i < j < |r| :: NumberBefore(r[i].0, r[j].0))
      && (forall p :: p in r <==>
            NearHolidayDay(p.0)
            && (exists i :: 0 <= i < |rows| && ReleaseDay(rows[i]) == p.0)
            && p.1 == HoursWhere(rows, ReleaseDay, p.0))
      && SumValues(r) == Total(HolidayReleases(rows))
  {
    var kept := HolidayReleases(rows);
    CandidateDaysAscendAndCover(rows);
    GroupSumFollowsOrder(kept, ReleaseDay, CandidateDays, NumberBefore);
    GroupSumAddsUp(kept, ReleaseDay, CandidateDays);
    ListedWhenCovered(kept, ReleaseDay, CandidateDays);
    forall p {
      HolidayViewershipEntry(rows, p);
    }
  }
}
