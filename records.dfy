/**
 * One row of the viewership table, and the columns the analysis derives from
 * it: release month, season and weekday.
 */
module Records {
  import Calendar
  import opened Wrappers

  datatype ContentType = Movie | Show

  /** A cleaned row: Hours Viewed is already a number (held exactly), and the
      Release Date is a parsed calendar date, or None where the cell is empty
      (pandas reads an empty cell as NaT, "not a time"). */
  datatype Record = Record(
    title: string,
    contentType: ContentType,
    language: string,
    releaseDate: Option<Calendar.CivilDate>,
    hoursViewed: real)

  /** The row has a release date. */
  predicate IsDated(r: Record) {
    r.releaseDate.Some?
  }

  datatype Season = Winter | Spring | Summer | Fall

  /** The seasons in the order the analysis presents them. */
  const SeasonOrder: seq<Season> := [Winter, Spring, Summer, Fall]

  /** get_season applied to a Release Month value: a month number, or None for
      the NaN month of an undated row.  NaN is none of the listed months, so it
      falls into the final branch and is labelled Fall, as is any number
      outside 1..8 and 12. */
  function GetSeason(month: Option<int>): (s: Season)
    ensures s == Winter <==> month.Some? && month.value in {12, 1, 2}
    ensures s == Spring <==> month.Some? && month.value in {3, 4, 5}
    ensures s == Summer <==> month.Some? && month.value in {6, 7, 8}
    ensures s == Fall <==> month.None? || month.value !in {12, 1, 2, 3, 4, 5, 6, 7, 8}
  {
    if month in {Some(12), Some(1), Some(2)} then Winter
    else if month in {Some(3), Some(4), Some(5)} then Spring
    else if month in {Some(6), Some(7), Some(8)} then Summer
    else Fall
  }

  /** The calendar months (1..12) that carry season s. */
  function MonthsIn(s: Season): set<int> {
    set m | 1 <= m <= 12 && GetSeason(Some(m)) == s
  }

  /** The four seasons split the twelve months into four groups of three. */
  lemma SeasonsPartitionMonths()
    ensures MonthsIn(Winter) == {12, 1, 2} && MonthsIn(Spring) == {3, 4, 5}
    ensures MonthsIn(Summer) == {6, 7, 8} && MonthsIn(Fall) == {9, 10, 11}
    ensures forall s :: |MonthsIn(s)| == 3
  {
    assert MonthsIn(Winter) == {12, 1, 2};
    assert MonthsIn(Spring) == {3, 4, 5};
    assert MonthsIn(Summer) == {6, 7, 8};
    assert MonthsIn(Fall) == {9, 10, 11};
  }

  /** The derived Release Month column: None (NaN) exactly for an undated
      row, otherwise a month number. */
  function ReleaseMonth(r: Record): (m: Option<int>)
    ensures m.Some? <==> IsDated(r)
    ensures m.Some? ==> 1 <= m.value <= 12
  {
    match r.releaseDate
    case None => None
    case Some(date) => Some(date.month)
  }

  /** The Release Date as a timestamp: its day number, None for NaT. */
  function ReleaseDay(r: Record): (n: Option<int>)
    ensures n.Some? <==> IsDated(r)
  {
    match r.releaseDate
    case None => None
    case Some(date) => Some(Calendar.DayNumber(date))
  }

  /** The derived Season column: the season of the release month. */
  function SeasonOf(r: Record): (s: Season)
    ensures !IsDated(r) ==> s == Fall
  {
    GetSeason(ReleaseMonth(r))
  }

  /** The derived Weekday column: the weekday name, None (NaN) for NaT. */
  function WeekdayOf(r: Record): (w: Option<Calendar.Weekday>)
    ensures w.Some? <==> IsDated(r)
  {
    match r.releaseDate
    case None => None
    case Some(date) => Some(Calendar.WeekdayOf(date))
  }
}
