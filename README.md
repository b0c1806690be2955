# Netflix 2023 viewership analysis — a Dafny model

`Netflix_2023.py` loads Netflix's "What We Watched" table for 2023, one row
per title with its Content Type (Movie or Show), Language Indicator, Release
Date and Hours Viewed. It cleans the Hours Viewed text and derives a release
month, a season and a weekday for each title. From these it computes the
aggregates behind seven charts, plus a top-five list and a holiday
analysis. This project models those computations as pure Dafny functions over
a sequence of records, and proves what each aggregate contains:

- **Cleaning** (`cleaning.dfy`): thousands separators are removed from
  the Hours Viewed text.
- **Calendar** (`calendar.dfy`): proleptic Gregorian dates and their day
  numbers.
  - The day number counts days since 1970-01-01, the origin of pandas'
    timestamps.
  - Weekday names follow from the day number.
- **Records** (`records.dfy`): a row and its derived columns.
  - The columns are Release Month, Season (`get_season`) and Weekday.
  - A row whose Release Date cell is empty has no date: pandas reads it as
    NaT, and its month and weekday are NaN.
- **Grouping** (`grouping.dfy`): the building blocks of the charts.
  - `groupby(...).sum()`, presented in pandas' order of sorted group labels.
  - `value_counts()`, put in label order by the `sort_index()` at line 103 or
    the `reindex` at line 124 that follows it.
  - `reindex` over a fixed key list, where a key without rows is missing
    (NaN).
  - Boolean row selection.
  - Groupings drop rows whose key is NaN, as pandas does.
- **Viewership** (`viewership.dfy`): the charted aggregates.
  - Sums by content type, by language (sorted largest first), by month, by
    month and content type, by season and by weekday.
  - Release counts per month and per weekday.
- **TopTitles** (`top_titles.dfy`): `nlargest(5, 'Hours Viewed')`. When
  hours tie, the earlier row wins (`keep='first'`).
- **Holidays** (`holidays.dfy`): the releases dated within three days of
  five 2023 holidays, and their Hours Viewed per release date.

Hours Viewed is held as an exact `real`. Rows are named by their position in
the table.

Two points where the model follows the code rather than a looser reading of
its intent:
- A season with no titles gets a missing value from `reindex`, not 0.
- Release dates may be absent. Such rows are dropped from every month,
  weekday and holiday aggregate. `get_season` still labels them Fall (see
  Findings).

## Model

| member | source | states |
|---|---|---|
| Cleaning.StripSeparators | Netflix_2023.py:19 | the cleaned text contains no ',' and is no longer than the original |
| Cleaning.StripKeepsOtherCharacters | Netflix_2023.py:19 | cleaning removes every ',' and keeps every other character as often as it occurs |
| Cleaning.StripConcat | Netflix_2023.py:19 | cleaning works piece by piece, so the kept characters stay in their original order |
| Cleaning.StripWithoutSeparators | Netflix_2023.py:19 | text without ',' is left unchanged |
| Cleaning.StripIdempotent | Netflix_2023.py:19 | cleaning an already cleaned value changes nothing |
| Cleaning.SeparatorBetweenDigitGroups | Netflix_2023.py:19 | "a,b" with separator-free digit groups cleans to "ab", e.g. "1,000.5" to "1000.5" |
| Calendar.NextDayInMonth | Netflix_2023.py:43 | consecutive dates within a month get consecutive day numbers |
| Calendar.NextMonthStart | Netflix_2023.py:43 | in every month but February and December, the first of the next month follows the last day of the month |
| Calendar.YearLength | Netflix_2023.py:43 | a year counted from 1 March has 366 days exactly when the next year is a leap year, else 365 |
| Calendar.MarchStart | Netflix_2023.py:43 | 1 March follows 28 or 29 February, by the leap-year rule |
| Calendar.NextYearStart | Netflix_2023.py:43 | 1 January follows 31 December of the year before |
| Calendar.NextDateIsNextDay | Netflix_2023.py:43 | for every date, the next calendar date has the next day number, so day differences count days |
| Calendar.DayNumber | Netflix_2023.py:43 | the timestamp of a parsed date, as days since 1970-01-01; its properties are stated by NextDateIsNextDay, EpochIsThursday and DayNumberIn2023 |
| Calendar.DayNumberIn2023 | Netflix_2023.py:145-148 | closed form of the day numbers of 2023's dates |
| Calendar.EpochIsThursday | Netflix_2023.py:123 | day number 0 is 1970-01-01, a Thursday |
| Calendar.NextDayIsNextWeekday | Netflix_2023.py:123 | the next day's weekday is the successor in Monday..Sunday, Sunday followed by Monday, and weekdays repeat every seven days |
| Calendar.NextDateIsNextWeekday | Netflix_2023.py:123 | the next calendar date falls on the next weekday |
| Calendar.WeekdayOfDay | Netflix_2023.py:123 | `day_name()` of a day number; stated by NextDayIsNextWeekday and EpochIsThursday |
| Calendar.WeekdayOf | Netflix_2023.py:123 | `day_name()` of a date; stated by NextDateIsNextWeekday and Christmas2023WasMonday |
| Calendar.Christmas2023WasMonday | Netflix_2023.py:123 | 2023-12-25 is day 19716, a Monday |
| Records.ReleaseMonth | Netflix_2023.py:43-44 | the month is missing (NaN) exactly for an undated row, and otherwise lies in 1..12 |
| Records.ReleaseDay | Netflix_2023.py:43 | the timestamp is NaT exactly for an undated row |
| Records.WeekdayOf | Netflix_2023.py:123 | the weekday is NaN exactly for an undated row |
| Records.GetSeason | Netflix_2023.py:77-85 | Winter iff the month is 12, 1 or 2; Spring iff 3, 4 or 5; Summer iff 6, 7 or 8; Fall iff the month is NaN or any other value |
| Records.SeasonsPartitionMonths | Netflix_2023.py:77-85 | the seasons split the twelve months into {12,1,2}, {3,4,5}, {6,7,8} and {9,10,11}, three months each |
| Records.SeasonOf | Netflix_2023.py:88 | an undated row gets the season Fall |
| Grouping.CountWhereOccurs | Netflix_2023.py:25 | a group exists exactly when some row carries its key |
| Grouping.HoursWhere | Netflix_2023.py:25 | one group of `groupby(key)['Hours Viewed'].sum()`; its properties are stated by AbsentGroupHasNoHours, GroupSumAddsUp and GroupsIgnoreRowOrder |
| Grouping.CountWhere | Netflix_2023.py:103 | one entry of `value_counts()`; stated by CountWhereOccurs, GroupCountAddsUp and GroupsIgnoreRowOrder |
| Grouping.GroupSum | Netflix_2023.py:25 | an entry (k, h) is in the result iff k is listed, some row has key k, and h is the Hours Viewed of those rows |
| Grouping.GroupSumFollowsOrder | Netflix_2023.py:25 | the groups come in the order of the listed keys, so sorted labels give sorted groups |
| Grouping.GroupSumAddsUp | Netflix_2023.py:25 | the group totals add up to the Hours Viewed of all rows whose key is listed, each row counted once |
| Grouping.ListedWhenCovered | Netflix_2023.py:25 | when every row's key is listed, no row is dropped: the listed rows' hours and count are the table's |
| Grouping.GroupsIgnoreRowOrder | Netflix_2023.py:25 | rearranging the rows changes no group total and no group size |
| Grouping.KeysInOrder | Netflix_2023.py:34 | the distinct keys, each once, exactly those some row carries |
| Grouping.KeysInOrderCovers | Netflix_2023.py:34 | every row's key is among them |
| Grouping.ListedIsFiltered | Netflix_2023.py:47 | when a row's key is listed exactly if it passes a test, the listed rows' hours and count are those of the rows the test selects |
| Grouping.GroupCount | Netflix_2023.py:103 | an entry (k, n) is in the result iff k is listed and n > 0 rows have key k |
| Grouping.GroupCountFollowsOrder | Netflix_2023.py:103 | the counts come in the order of the listed keys |
| Grouping.GroupCountAddsUp | Netflix_2023.py:103 | the counts add up to the number of rows whose key is listed |
| Grouping.AbsentGroupHasNoHours | Netflix_2023.py:92 | a key carried by no row has an empty group with 0 hours |
| Grouping.ReindexSum | Netflix_2023.py:92 | one entry per listed key, whatever the rows |
| Grouping.ReindexSumSpec | Netflix_2023.py:92 | one entry per listed key; missing iff no row has the key, otherwise the group total; the present entries add up to the hours of the listed rows |
| Grouping.ReindexIgnoresRowOrder | Netflix_2023.py:92 | a reindexed aggregate depends only on which rows there are, not on their order |
| Grouping.ReindexCount | Netflix_2023.py:124 | one entry per listed key, whatever the rows |
| Grouping.ReindexCountSpec | Netflix_2023.py:124 | one entry per listed key; missing iff no row has the key, otherwise the positive row count; the present counts add up to the number of listed rows |
| Grouping.Filter | Netflix_2023.py:149 | a selection is no longer than the table and holds only rows that pass the test |
| Grouping.FilterKeepsExactly | Netflix_2023.py:149 | a selection keeps every passing row as often as it occurs and drops every other row |
| Grouping.FilterAppend | Netflix_2023.py:149 | selecting from a + b gives the selection from a followed by the selection from b, so kept rows stay in table order |
| Grouping.FilterOne | Netflix_2023.py:149 | a single row is kept exactly when it passes |
| Viewership.ViewershipByContentType | Netflix_2023.py:25 | the content-type chart's data; stated by ViewershipByContentTypeSpec |
| Viewership.ViewershipByContentTypeSpec | Netflix_2023.py:25 | one entry per content type present, Movie before Show, holding that type's total; the entries add up to the total Hours Viewed |
| Viewership.InsertByTotal | Netflix_2023.py:34 | insertion adds exactly the one entry |
| Viewership.InsertByTotalSorted | Netflix_2023.py:34 | inserting into a list sorted largest first keeps it sorted |
| Viewership.SortByTotalDesc | Netflix_2023.py:34 | the result is in non-increasing order of total and is a permutation of the input |
| Viewership.SortByTotalDescSumAndKeys | Netflix_2023.py:34 | sorting keeps the sum of the totals and keeps distinct labels distinct |
| Viewership.GroupSumKeysDistinct | Netflix_2023.py:34 | a group-by sum lists each label once |
| Viewership.ViewershipByLanguage | Netflix_2023.py:34 | the language chart's data; stated by ViewershipByLanguageSpec |
| Viewership.ViewershipByLanguageSpec | Netflix_2023.py:34 | one entry per language present, each once, holding its total, largest first; the entries add up to the total Hours Viewed |
| Viewership.MonthOrderIsAscending | Netflix_2023.py:47 | the month labels are 1..12, ascending, each once, and NaN is not among them |
| Viewership.MonthlyViewership | Netflix_2023.py:47 | the monthly chart's data; stated by MonthlyViewershipSpec |
| Viewership.MonthlyViewershipSpec | Netflix_2023.py:47 | one entry per month with a release, months ascending, holding that month's total; undated rows are dropped; the entries add up to the hours of the dated rows |
| Viewership.MonthTypeOrderIsAscending | Netflix_2023.py:63 | the (month, type) labels ascend lexicographically, each once |
| Viewership.MonthTypeOrderListsDated | Netflix_2023.py:63 | a row's (month, type) label is listed exactly when the row is dated |
| Viewership.MonthTypeViewership | Netflix_2023.py:63 | the month-by-type data before `unstack()`; stated by MonthTypeViewershipSpec |
| Viewership.MonthTypeViewershipSpec | Netflix_2023.py:63 | one entry per (month, type) pair present among dated rows, ascending, holding the pair's total; the entries add up to the hours of the dated rows |
| Viewership.SeasonalViewership | Netflix_2023.py:91-92 | the seasonal chart's data as the code computes it; stated by SeasonalViewershipSpec |
| Viewership.SeasonalViewershipSpec | Netflix_2023.py:91-92 | exactly four entries, Winter, Spring, Summer, Fall; an entry is missing iff no row has that season, otherwise it holds the season's total; the present entries add up to the total Hours Viewed |
| Viewership.SeasonalViewershipIgnoresRowOrder | Netflix_2023.py:91-92 | the seasonal aggregate is the same for every order of the rows |
| Viewership.UndatedTitleCountsAsFall | Netflix_2023.py:77-92 | for a table of one undated title, the seasonal chart shows its hours under Fall while the monthly chart is empty |
| Viewership.DatedSeasonalViewership | Netflix_2023.py:88-92 | the corrected seasonal data over the dated titles; stated by DatedSeasonalViewershipSpec |
| Viewership.DatedSeasonalViewershipSpec | Netflix_2023.py:88-92 | with undated titles left out, an entry is missing iff no dated row has that season, and the present entries add up to the monthly chart's total |
| Viewership.MonthlyReleases | Netflix_2023.py:103 | the monthly release counts, months in ascending order as `sort_index()` puts them; stated by MonthlyReleasesSpec |
| Viewership.MonthlyReleasesSpec | Netflix_2023.py:103 | one entry per month with a release, ascending, holding the number of releases; the counts add up to the number of dated rows |
| Viewership.WeekdayOrderListsDated | Netflix_2023.py:123-125 | each weekday name is listed once, and a row's weekday is listed exactly when the row is dated |
| Viewership.WeekdayReleases | Netflix_2023.py:124 | the weekday release counts; stated by WeekdayReleasesSpec |
| Viewership.WeekdayViewership | Netflix_2023.py:125 | the weekday totals; stated by WeekdayViewershipSpec |
| Viewership.WeekdayReleasesSpec | Netflix_2023.py:124 | seven entries, Monday..Sunday; an entry is missing iff nothing was released that weekday, otherwise it holds the positive count; the counts add up to the number of dated rows |
| Viewership.WeekdayViewershipSpec | Netflix_2023.py:125 | seven entries, Monday..Sunday; an entry is missing iff nothing was released that weekday, otherwise it holds that weekday's total; the entries add up to the hours of the dated rows |
| TopTitles.InsertByRank | Netflix_2023.py:59 | inserting a row position adds exactly that position |
| TopTitles.InsertByRankOrdered | Netflix_2023.py:59 | inserting a new position into a rank-ordered list keeps it rank-ordered |
| TopTitles.RanksAboveTransitive | Netflix_2023.py:59 | the ranking (more hours, ties to the earlier row) is transitive |
| TopTitles.InsertByRankMembers | Netflix_2023.py:59 | after insertion the list holds the new position and the old ones, nothing else |
| TopTitles.Ranking | Netflix_2023.py:59 | the positions 0..n-1, each once, in rank order |
| TopTitles.Largest | Netflix_2023.py:59 | nlargest(k) picks min(k, number of rows) rows |
| TopTitles.TopFive | Netflix_2023.py:59 | at most five rows, never more than the table has |
| TopTitles.LargestSpec | Netflix_2023.py:59 | nlargest(k) picks min(k, rows) distinct rows with non-increasing hours, rows with equal hours in table order; every row left out has fewer hours than each chosen row, or the same hours and a later position |
| TopTitles.LargestOfWholeTable | Netflix_2023.py:59 | when k covers the table, every row is chosen |
| TopTitles.TopFiveTitles | Netflix_2023.py:59-60 | the report has one line per chosen row, at most five, and line a is the title and hours of the a-th chosen row |
| Holidays.HolidayDayNumbers | Netflix_2023.py:145-148 | the five holiday constants are the day numbers of 2023-01-01, 02-14, 07-04, 10-31 and 12-25 |
| Holidays.WithinThreeDays | Netflix_2023.py:149 | `(x - date).days in range(-3, 4)`; stated by ChristmasWindow |
| Holidays.NearHoliday | Netflix_2023.py:149 | `any(...)` over the five holidays; stated by ChristmasWindow and WindowsDoNotOverlap |
| Holidays.ReleasedNearHoliday | Netflix_2023.py:149 | the mask of line 149 for one row: a NaT date is near no holiday; stated by HolidayHoursOfDay and HolidayViewershipSpec |
| Holidays.HolidayReleases | Netflix_2023.py:149 | `holiday_releases`, the selection by that mask; stated by Grouping.FilterKeepsExactly, Grouping.FilterAppend and HolidayHoursOfDay |
| Holidays.HolidayViewership | Netflix_2023.py:150 | `holiday_viewership`; stated by HolidayViewershipSpec |
| Holidays.WindowsDoNotOverlap | Netflix_2023.py:145-149 | no day lies within three days of two different holidays |
| Holidays.ChristmasWindow | Netflix_2023.py:149 | both ends of range(-3, 4) are in the window: 22 and 28 December count for Christmas, 21 and 29 December do not |
| Holidays.HolidayHoursOfDay | Netflix_2023.py:149-150 | the selected rows' hours for a date are the whole table's when the date is near a holiday, and 0 otherwise |
| Holidays.HolidayReleasesOfDay | Netflix_2023.py:149-150 | the same for the number of releases on a date |
| Holidays.CandidateDaysAscendAndCover | Netflix_2023.py:150 | the candidate dates ascend, each once, and include the date of every selected row |
| Holidays.HolidayViewershipEntry | Netflix_2023.py:150 | a (date, hours) entry is present iff the date is near a holiday, some title was released that day, and hours is that day's total |
| Holidays.HolidayViewershipSpec | Netflix_2023.py:149-150 | dates ascending; an entry per date near a holiday with a release, holding that day's total; undated rows take no part; the entries add up to the hours of the selected rows |

## Findings

| source | as written | input that shows it | evidently intended | confidence | as-written member | corrected member |
|---|---|---|---|---|---|---|
| Netflix_2023.py:77-92 | `get_season` receives NaN as the month of a title with no release date; NaN matches none of the month tuples, so the title is labelled Fall and its hours go into the Fall bar | a table holding one title with an empty Release Date: the seasonal aggregate is [NaN, NaN, NaN, its hours], the monthly aggregate is empty | a title without a release date has no season; the seasonal bars cover the dated titles, and their sum matches the monthly chart | medium, not executed | Viewership.UndatedTitleCountsAsFall | Viewership.DatedSeasonalViewershipSpec |

`Viewership.SeasonalViewership` models the chart as the code computes it.
`Viewership.DatedSeasonalViewership` is the corrected aggregate.

## Left out

- Loading the CSV file, `head()`/`info()` and every chart. The model starts
  from the table as a sequence of records; a missing file or a missing column
  is not modelled.
- Converting the cleaned Hours Viewed text to a float (`astype(float)`).
  Hours are given as exact reals, so float rounding in the sums is not
  modelled, and neither is the failure on non-numeric text. A missing Hours
  Viewed value is not modelled.
- Parsing Release Date text (`pd.to_datetime`). A date is given as a
  calendar triple, or as absent for an empty cell; the failure on
  unparseable text is not modelled.
- Missing Content Type or Language Indicator values are not modelled. Every
  row carries one of the two content types and a language string.
- The in-place column assignments (Release Month, Season, Weekday) are
  modelled as functions of a record, not as added columns.
- `unstack()` at line 63 is not modelled. The month-by-type aggregate stays
  in long form, as (month, type) pairs. The wide table's NaN cells for
  absent pairs are not modelled.
- Viewership.ViewershipByLanguage: pandas sorts with an unstable quicksort, so
  the order of languages with equal totals is unspecified. The model promises
  only non-increasing totals, with the same entries, and its own tie order
  may differ.
- TopTitles.Largest returns row positions rather than a sub-table;
  TopTitles.TopFiveTitles projects them to (title, hours).
- The display of `holiday_releases` at line 153 is not modelled beyond the
  selection itself.
