/**
 * The aggregates the analysis charts: total Hours Viewed by content type, by
 * language, by release month, by release month and content type, by season and
 * by weekday, and the number of releases per month and per weekday.
 */
module Viewership {
  import opened Records
  import opened Grouping
  import opened Wrappers
  import Calendar

  // Grouping columns

  function ContentTypeKey(r: Record): ContentType {
    r.contentType
  }

  function LanguageKey(r: Record): string {
    r.language
  }

  function MonthTypeKey(r: Record): (Option<int>, ContentType) {
    (ReleaseMonth(r), r.contentType)
  }

  /** pandas sorts group labels; "Movie" sorts before "Show". */
  const ContentTypeOrder: seq<ContentType> := [Movie, Show]

  /** The month numbers 1..12.  pandas drops the NaN month of an undated row
      from a grouping, so None is not listed. */
  const MonthOrder: seq<Option<int>> := seq(12, i => Some(i + 1))

  /** (month, content type) pairs in ascending lexicographic order. */
  const MonthTypeOrder: seq<(Option<int>, ContentType)> :=
    seq(24, i requires 0 <= i < 24 => (Some(i / 2 + 1), if i % 2 == 0 then Movie else Show))

  /** The weekday names Monday..Sunday; NaN is not listed. */
  const WeekdayOrder: seq<Option<Calendar.Weekday>> :=
    seq(7, i requires 0 <= i < 7 => Some(Calendar.WeekOrder[i]))

  function ContentTypeLess(a: ContentType, b: ContentType): bool {
    a == Movie && b == Show
  }

  function MonthTypeLess(a: (Option<int>, ContentType), b: (Option<int>, ContentType)): bool {
    NumberBefore(a.0, b.0) || (a.0 == b.0 && a.1 == Movie && b.1 == Show)
  }

  /** The rows with a release date, the ones the month and weekday groupings
      keep. */
  function Dated(rows: seq<Record>): seq<Record> {
    Filter(rows, IsDated)
  }

  lemma MonthOrderIsAscending()
    ensures forall i, j | 0 <= i < j < |MonthOrder| :: NumberBefore(MonthOrder[i], MonthOrder[j])
    ensures Distinct(MonthOrder)
    ensures forall m: Option<int> :: m in MonthOrder <==> m.Some? && 1 <= m.value <= 12
  {
    forall m: Option<int> | m.Some? && 1 <= m.value <= 12
      ensures m in MonthOrder
    {
      assert MonthOrder[m.value - 1] == m;
    }
  }

  lemma MonthTypeOrderIsAscending()
    ensures forall i, j | 0 <= i < j < |MonthTypeOrder| :: MonthTypeLess(MonthTypeOrder[i], MonthTypeOrder[j])
    ensures Distinct(MonthTypeOrder)
  {
  }

  /** A row's (month, content type) pair is listed exactly when the row is
      dated. */
  lemma MonthTypeOrderListsDated(rows: seq<Record>)
    ensures forall i | 0 <= i < |rows| :: MonthTypeKey(rows[i]) in MonthTypeOrder <==> IsDated(rows[i])
  {
    forall i | 0 <= i < |rows| && IsDated(rows[i])
      ensures MonthTypeKey(rows[i]) in MonthTypeOrder
    {
      var m, c := ReleaseMonth(rows[i]).value, rows[i].contentType;
      var k := 2 * (m - 1) + (if c == Movie then 0 else 1);
      assert k / 2 == m - 1 && k % 2 == (if c == Movie then 0 else 1);
      assert MonthTypeOrder[k] == (Some(m), c);
    }
  }

  /** Each weekday is listed once, and a row's weekday is listed exactly when
      the row is dated. */
  lemma WeekdayOrderListsDated(rows: seq<Record>)
    ensures Distinct(WeekdayOrder)
    ensures forall i | 0 <= i < |rows| :: WeekdayOf(rows[i]) in WeekdayOrder <==> IsDated(rows[i])
  {
    forall i | 0 <= i < |rows| && IsDated(rows[i])
      ensures WeekdayOf(rows[i]) in WeekdayOrder
    {
      match WeekdayOf(rows[i]).value
      case Monday => assert WeekdayOrder[0] == Some(Calendar.Monday);
      case Tuesday => assert WeekdayOrder[1] == Some(Calendar.Tuesday);
      case Wednesday => assert WeekdayOrder[2] == Some(Calendar.Wednesday);
      case Thursday => assert WeekdayOrder[3] == Some(Calendar.Thursday);
      case Friday => assert WeekdayOrder[4] == Some(Calendar.Friday);
      case Saturday => assert WeekdayOrder[5] == Some(Calendar.Saturday);
      case Sunday => assert WeekdayOrder[6] == Some(Calendar.Sunday);
    }
  }

  // ---------------------------------------------------------------------------
  // Visualization 1: total Hours Viewed by content type

  function ViewershipByContentType(rows: seq<Record>): seq<(ContentType, real)> {
    GroupSum(rows, ContentTypeKey, ContentTypeOrder)
  }

  /** One entry per content type that occurs, Movie before Show, holding that
      type's total; the entries add up to the total Hours Viewed. */
  lemma ViewershipByContentTypeSpec(rows: seq<Record>)
    ensures var r := ViewershipByContentType(rows);
      && (forall p :: p in r <==>
            (exists i :: 0 <= i < |rows| && rows[i].contentType == p.0)
            && p.1 == HoursWhere(rows, ContentTypeKey, p.0))
      && (forall i, j | 0 <= i < j < |r| :: ContentTypeLess(r[i].0, r[j].0))
      && SumValues(r) == Total(rows)
  {
    var r := ViewershipByContentType(rows);
    ContentTypeOrderCovers(rows);
    forall p: (ContentType, real)
      ensures p in r <==>
        (exists i :: 0 <= i < |rows| && rows[i].contentType == p.0)
        && p.1 == HoursWhere(rows, ContentTypeKey, p.0)
    {
      CountWhereOccurs(rows, ContentTypeKey, p.0);
      assert p.0 == ContentTypeOrder[0] || p.0 == ContentTypeOrder[1];
    }
    GroupSumFollowsOrder(rows, ContentTypeKey, ContentTypeOrder, ContentTypeLess);
    GroupSumAddsUp(rows, ContentTypeKey, ContentTypeOrder);
    ListedWhenCovered(rows, ContentTypeKey, ContentTypeOrder);
  }

  /** Both content types are listed, each once. */
  lemma ContentTypeOrderCovers(rows: seq<Record>)
    ensures Distinct(ContentTypeOrder) && Covers(rows, ContentTypeKey, ContentTypeOrder)
  {
    forall i | 0 <= i < |rows|
      ensures ContentTypeKey(rows[i]) in ContentTypeOrder
    {
      assert ContentTypeKey(rows[i]) == ContentTypeOrder[0] || ContentTypeKey(rows[i]) == ContentTypeOrder[1];
    }
  }

  // ---------------------------------------------------------------------------
  // Visualization 2: total Hours Viewed by language, largest first

  /** All totals are in non-increasing order. */
  predicate NonIncreasing<K>(ps: seq<(K, real)>) {
    forall i, j | 0 <= i < j < |ps| :: ps[i].1 >= ps[j].1
  }

  predicate DistinctKeys<K(==)>(ps: seq<(K, real)>) {
    forall i, j | 0 <= i < j < |ps| :: ps[i].0 != ps[j].0
  }

  /** Puts p into s in front of the first entry whose total is not larger. */
  function InsertByTotal<K>(p: (K, real), s: seq<(K, real)>): (r: seq<(K, real)>)
    ensures multiset(r) == multiset(s) + multiset{p}
  {
    if s == [] then [p]
    else if p.1 >= s[0].1 then
      assert s == [s[0]] + s[1..];
      [p] + s
    else
      assert s == [s[0]] + s[1..];
      [s[0]] + InsertByTotal(p, s[1..])
  }

  /** Inserting an entry no larger than a bound into entries no larger than
      the bound gives entries no larger than the bound. */
  lemma InsertByTotalBounded<K>(p: (K, real), s: seq<(K, real)>, bound: real)
    requires p.1 <= bound
    requires forall q | q in s :: q.1 <= bound
    ensures forall q | q in InsertByTotal(p, s) :: q.1 <= bound
  {
    var r := InsertByTotal(p, s);
    forall q | q in r
      ensures q.1 <= bound
    {
      assert q in multiset(r);
      assert q == p || q in multiset(s);
    }
  }

  /** Inserting into a list sorted largest first keeps it sorted. */
  lemma {:induction false} InsertByTotalSorted<K>(p: (K, real), s: seq<(K, real)>)
    requires NonIncreasing(s)
    ensures NonIncreasing(InsertByTotal(p, s))
  {
    if s != [] && p.1 < s[0].1 {
      var r, rest := InsertByTotal(p, s), InsertByTotal(p, s[1..]);
      InsertByTotalSorted(p, s[1..]);
      assert r == [s[0]] + rest;
      forall q | q in s[1..]
        ensures q.1 <= s[0].1
      {
        var m :| 0 <= m < |s[1..]| && s[1..][m] == q;
        assert s[m + 1] == q;
      }
      InsertByTotalBounded(p, s[1..], s[0].1);
      forall i, j | 0 <= i < j < |r|
        ensures r[i].1 >= r[j].1
      {
        assert r[j] == rest[j - 1] && r[j] in rest;
        if i > 0 {
          assert r[i] == rest[i - 1];
        }
      }
    }
  }

  /** `sort_values(ascending=False)`: the same groups, largest total first. */
  function SortByTotalDesc<K>(ps: seq<(K, real)>): (r: seq<(K, real)>)
    ensures NonIncreasing(r)
    ensures multiset(r) == multiset(ps)
  {
    if ps == [] then []
    else
      assert ps == [ps[0]] + ps[1..];
      var sorted := SortByTotalDesc(ps[1..]);
      InsertByTotalSorted(ps[0], sorted);
      InsertByTotal(ps[0], sorted)
  }

  lemma {:induction false} InsertByTotalSum<K>(p: (K, real), s: seq<(K, real)>)
    ensures SumValues(InsertByTotal(p, s)) == p.1 + SumValues(s)
  {
    if s != [] && p.1 < s[0].1 {
      InsertByTotalSum(p, s[1..]);
    }
  }

  lemma InsertByTotalMembers<K>(p: (K, real), s: seq<(K, real)>)
    ensures forall q :: q in InsertByTotal(p, s) <==> q == p || q in s
  {
    var r := InsertByTotal(p, s);
    forall q
      ensures q in r <==> q == p || q in s
    {
      assert q in r <==> q in multiset(r);
      assert q in s <==> q in multiset(s);
    }
  }

  /** The entries after the first of a list with distinct keys have distinct
      keys, none of them the first entry's key. */
  lemma TailKeysDistinct<K>(s: seq<(K, real)>)
    requires s != [] && DistinctKeys(s)
    ensures DistinctKeys(s[1..])
    ensures forall q | q in s[1..] :: q.0 != s[0].0
  {
    forall i, j | 0 <= i < j < |s[1..]|
      ensures s[1..][i].0 != s[1..][j].0
    {
      assert s[1..][i] == s[i + 1] && s[1..][j] == s[j + 1];
    }
    forall q | q in s[1..]
      ensures q.0 != s[0].0
    {
      var m :| 0 <= m < |s[1..]| && s[1..][m] == q;
      assert s[m + 1] == q;
    }
  }

  /** Putting an entry with a new key in front keeps the keys distinct. */
  lemma ConsKeysDistinct<K>(x: (K, real), t: seq<(K, real)>)
    requires DistinctKeys(t)
    requires forall q | q in t :: q.0 != x.0
    ensures DistinctKeys([x] + t)
  {
    var r := [x] + t;
    forall i, j | 0 <= i < j < |r|
      ensures r[i].0 != r[j].0
    {
      assert r[j] == t[j - 1] && r[j] in t;
      if i > 0 {
        assert r[i] == t[i - 1];
      }
    }
  }

  lemma {:induction false} InsertByTotalKeepsKeysDistinct<K>(p: (K, real), s: seq<(K, real)>)
    requires DistinctKeys(s)
    requires forall q | q in s :: q.0 != p.0
    ensures DistinctKeys(InsertByTotal(p, s))
  {
    if s == [] {
    } else if p.1 >= s[0].1 {
      ConsKeysDistinct(p, s);
    } else {
      var rest := InsertByTotal(p, s[1..]);
      TailKeysDistinct(s);
      InsertByTotalKeepsKeysDistinct(p, s[1..]);
      InsertByTotalMembers(p, s[1..]);
      assert s[0] in s;
      ConsKeysDistinct(s[0], rest);
    }
  }

  lemma {:induction false} SortByTotalDescSumAndKeys<K>(ps: seq<(K, real)>)
    ensures SumValues(SortByTotalDesc(ps)) == SumValues(ps)
    ensures DistinctKeys(ps) ==> DistinctKeys(SortByTotalDesc(ps))
  {
    if ps != [] {
      var sorted := SortByTotalDesc(ps[1..]);
      SortByTotalDescSumAndKeys(ps[1..]);
      InsertByTotalSum(ps[0], sorted);
      if DistinctKeys(ps) {
        TailKeysDistinct(ps);
        forall q | q in sorted
          ensures q in ps[1..]
        {
          assert q in multiset(sorted);
        }
        InsertByTotalKeepsKeysDistinct(ps[0], sorted);
      }
    }
  }

  lemma {:induction false} GroupSumKeysDistinct<K(!new)>(rows: seq<Record>, key: Record -> K, order: seq<K>)
    requires Distinct(order)
    ensures DistinctKeys(GroupSum(rows, key, order))
  {
    if order != [] {
      var rest := GroupSum(rows, key, order[1..]);
      assert Distinct(order[1..]) by {
        forall i, j | 0 <= i < j < |order[1..]|
          ensures order[1..][i] != order[1..][j]
        {
          assert order[1..][i] == order[i + 1] && order[1..][j] == order[j + 1];
        }
      }
      GroupSumKeysDistinct(rows, key, order[1..]);
      if CountWhere(rows, key, order[0]) > 0 {
        forall q | q in rest
          ensures q.0 != order[0]
        {
          var m :| 0 <= m < |order[1..]| && order[1..][m] == q.0;
          assert order[m + 1] == q.0;
        }
        ConsKeysDistinct((order[0], HoursWhere(rows, key, order[0])), rest);
      }
    }
  }

  function ViewershipByLanguage(rows: seq<Record>): seq<(string, real)> {
    SortByTotalDesc(GroupSum(rows, LanguageKey, KeysInOrder(rows, LanguageKey)))
  }

  /** One entry per language that occurs, holding that language's total, each
      language once, in non-increasing order of total; the entries add up to
      the total Hours Viewed. */
  lemma ViewershipByLanguageSpec(rows: seq<Record>)
    ensures var r := ViewershipByLanguage(rows);
      && NonIncreasing(r)
      && DistinctKeys(r)
      && (forall p :: p in r <==>
            (exists i :: 0 <= i < |rows| && rows[i].language == p.0)
            && p.1 == HoursWhere(rows, LanguageKey, p.0))
      && SumValues(r) == Total(rows)
  {
    var order := KeysInOrder(rows, LanguageKey);
    var g := GroupSum(rows, LanguageKey, order);
    var r := ViewershipByLanguage(rows);
    forall p | p in r
      ensures p in g
    {
      assert p in multiset(r);
    }
    forall p | p in g
      ensures p in r
    {
      assert p in multiset(g);
    }
    forall l: string {
      CountWhereOccurs(rows, LanguageKey, l);
    }
    KeysInOrderCovers(rows, LanguageKey);
    GroupSumAddsUp(rows, LanguageKey, order);
    ListedWhenCovered(rows, LanguageKey, order);
    GroupSumKeysDistinct(rows, LanguageKey, order);
    SortByTotalDescSumAndKeys(g);
  }

  // ---------------------------------------------------------------------------
  // Visualization 3: total Hours Viewed by release month

  function MonthlyViewership(rows: seq<Record>): seq<(Option<int>, real)> {
    GroupSum(rows, ReleaseMonth, MonthOrder)
  }

  /** One entry per month in which something was released, in ascending month
      order, holding that month's total; undated rows are dropped, and the
      entries add up to the total Hours Viewed of the dated rows. */
  lemma MonthlyViewershipSpec(rows: seq<Record>)
    ensures var r := MonthlyViewership(rows);
      && (forall i, j | 0 <= i < j < |r| :: NumberBefore(r[i].0, r[j].0))
      && (forall p :: p in r <==>
            p.0.Some?
            && (exists i :: 0 <= i < |rows| && ReleaseMonth(rows[i]) == p.0)
            && p.1 == HoursWhere(rows, ReleaseMonth, p.0))
      && SumValues(r) == Total(Dated(rows))
  {
    MonthOrderIsAscending();
    forall m: Option<int> {
      CountWhereOccurs(rows, ReleaseMonth, m);
    }
    GroupSumFollowsOrder(rows, ReleaseMonth, MonthOrder, NumberBefore);
    GroupSumAddsUp(rows, ReleaseMonth, MonthOrder);
    ListedIsFiltered(rows, ReleaseMonth, MonthOrder, IsDated);
  }

  // ---------------------------------------------------------------------------
  // Visualization 4: total Hours Viewed by release month and content type

  function MonthTypeViewership(rows: seq<Record>): seq<((Option<int>, ContentType), real)> {
    GroupSum(rows, MonthTypeKey, MonthTypeOrder)
  }

  /** One entry per (month, content type) pair that occurs among the dated
      rows, in ascending order of month and then content type, holding the
      pair's total; the entries add up to the total Hours Viewed of the dated
      rows. */
  lemma MonthTypeViewershipSpec(rows: seq<Record>)
    ensures var r := MonthTypeViewership(rows);
      && (forall i, j | 0 <= i < j < |r| :: MonthTypeLess(r[i].0, r[j].0))
      && (forall p :: p in r <==>
            p.0.0.Some?
            && (exists i :: 0 <= i < |rows| && MonthTypeKey(rows[i]) == p.0)
            && p.1 == HoursWhere(rows, MonthTypeKey, p.0))
      && SumValues(r) == Total(Dated(rows))
  {
    MonthTypeOrderIsAscending();
    MonthTypeOrderListsDated(rows);
    forall k: (Option<int>, ContentType)
      ensures CountWhere(rows, MonthTypeKey, k) > 0 <==> exists i :: 0 <= i < |rows| && MonthTypeKey(rows[i]) == k
      ensures k.0.Some? && CountWhere(rows, MonthTypeKey, k) > 0 ==> k in MonthTypeOrder
    {
      CountWhereOccurs(rows, MonthTypeKey, k);
      if k.0.Some? && CountWhere(rows, MonthTypeKey, k) > 0 {
        var i :| 0 <= i < |rows| && MonthTypeKey(rows[i]) == k;
        assert IsDated(rows[i]);
      }
    }
    GroupSumFollowsOrder(rows, MonthTypeKey, MonthTypeOrder, MonthTypeLess);
    GroupSumAddsUp(rows, MonthTypeKey, MonthTypeOrder);
    ListedIsFiltered(rows, MonthTypeKey, MonthTypeOrder, IsDated);
  }

  // ---------------------------------------------------------------------------
  // Visualization 5: total Hours Viewed by season, reindexed Winter..Fall

  function SeasonalViewership(rows: seq<Record>): seq<Option<real>> {
    ReindexSum(rows, SeasonOf, SeasonOrder)
  }

  /** Exactly four entries, for Winter, Spring, Summer and Fall in that order;
      an entry is missing exactly when no row falls in its season and
      otherwise holds the season's total; every row has a season, so the
      present entries add up to the total Hours Viewed. */
  lemma SeasonalViewershipSpec(rows: seq<Record>)
    ensures var r := SeasonalViewership(rows);
      && |r| == 4
      && (forall i | 0 <= i < 4 ::
            (r[i] == None <==> forall j | 0 <= j < |rows| :: SeasonOf(rows[j]) != SeasonOrder[i])
            && (r[i].Some? ==> r[i].value == HoursWhere(rows, SeasonOf, SeasonOrder[i])))
      && SumPresent(r) == Total(rows)
  {
    ReindexSumSpec(rows, SeasonOf, SeasonOrder);
    ListedWhenCovered(rows, SeasonOf, SeasonOrder);
  }

  /** The seasonal aggregate does not depend on the order of the rows. */
  lemma SeasonalViewershipIgnoresRowOrder(a: seq<Record>, b: seq<Record>)
    requires multiset(a) == multiset(b)
    ensures SeasonalViewership(a) == SeasonalViewership(b)
  {
    ReindexIgnoresRowOrder(a, b, SeasonOf, SeasonOrder);
  }

  /** As written, an undated title is put under Fall: for a table holding one
      undated title, the seasonal chart shows its hours as Fall while the
      monthly chart shows nothing. */
  lemma UndatedTitleCountsAsFall(r: Record)
    requires !IsDated(r)
    ensures SeasonalViewership([r]) == [None, None, None, Some(r.hoursViewed)]
    ensures MonthlyViewership([r]) == []
  {
    var rows := [r];
    assert rows[..0] == [];
    assert SeasonOf(r) == Fall;
    forall i | 0 <= i < 4
      ensures SeasonalViewership(rows)[i] == [None, None, None, Some(r.hoursViewed)][i]
    {
      var s := SeasonOrder[i];
      assert CountWhere(rows, SeasonOf, s) == if s == Fall then 1 else 0;
      assert HoursWhere(rows, SeasonOf, s) == if s == Fall then r.hoursViewed else 0.0;
    }
    MonthlyViewershipSpec(rows);
  }

  /** The seasonal aggregate over the dated titles only. */
  function DatedSeasonalViewership(rows: seq<Record>): seq<Option<real>> {
    SeasonalViewership(Dated(rows))
  }

  /** Four entries, Winter to Fall; an entry is missing exactly when no dated
      row falls in its season and otherwise holds the hours of the dated rows
      of that season; the present entries add up to the same total as the
      monthly chart. */
  lemma DatedSeasonalViewershipSpec(rows: seq<Record>)
    ensures var r := DatedSeasonalViewership(rows);
      && |r| == 4
      && (forall i | 0 <= i < 4 ::
            (r[i] == None <==>
               forall j | 0 <= j < |rows| :: !(IsDated(rows[j]) && SeasonOf(rows[j]) == SeasonOrder[i]))
            && (r[i].Some? ==> r[i].value == HoursWhere(Dated(rows), SeasonOf, SeasonOrder[i])))
      && SumPresent(r) == SumValues(MonthlyViewership(rows))
  {
    var dated := Dated(rows);
    SeasonalViewershipSpec(dated);
    MonthlyViewershipSpec(rows);
    FilterKeepsExactly(rows, IsDated);
    forall i | 0 <= i < 4
      ensures (forall j | 0 <= j < |dated| :: SeasonOf(dated[j]) != SeasonOrder[i]) <==>
              (forall j | 0 <= j < |rows| :: !(IsDated(rows[j]) && SeasonOf(rows[j]) == SeasonOrder[i]))
    {
      DatedRowsOfSeason(rows, SeasonOrder[i]);
    }
  }

  /** Some dated row has season s exactly when some row of the dated
      selection has it. */
  lemma DatedRowsOfSeason(rows: seq<Record>, s: Season)
    requires forall x :: multiset(Dated(rows))[x] == (if IsDated(x) then multiset(rows)[x] else 0)
    ensures (exists j :: 0 <= j < |Dated(rows)| && SeasonOf(Dated(rows)[j]) == s) <==>
            (exists j :: 0 <= j < |rows| && IsDated(rows[j]) && SeasonOf(rows[j]) == s)
  {
    var dated := Dated(rows);
    if j :| 0 <= j < |dated| && SeasonOf(dated[j]) == s {
      var x := dated[j];
      assert x in multiset(dated);
      assert x in multiset(rows);
      var k :| 0 <= k < |rows| && rows[k] == x;
    }
    if j :| 0 <= j < |rows| && IsDated(rows[j]) && SeasonOf(rows[j]) == s {
      var x := rows[j];
      assert x in multiset(rows);
      assert x in multiset(dated);
      var k :| 0 <= k < |dated| && dated[k] == x;
    }
  }

  // ---------------------------------------------------------------------------
  // Visualization 6: number of releases per month

  function MonthlyReleases(rows: seq<Record>): seq<(Option<int>, nat)> {
    GroupCount(rows, ReleaseMonth, MonthOrder)
  }

  /** One entry per month in which something was released, in ascending month
      order, holding the number of releases that month; undated rows are
      dropped, and the counts add up to the number of dated rows. */
  lemma MonthlyReleasesSpec(rows: seq<Record>)
    ensures var r := MonthlyReleases(rows);
      && (forall i, j | 0 <= i < j < |r| :: NumberBefore(r[i].0, r[j].0))
      && (forall p :: p in r <==>
            p.0.Some?
            && (exists i :: 0 <= i < |rows| && ReleaseMonth(rows[i]) == p.0)
            && p.1 == CountWhere(rows, ReleaseMonth, p.0))
      && SumCounts(r) == |Dated(rows)|
  {
    var r := MonthlyReleases(rows);
    MonthOrderIsAscending();
    forall p
      ensures p in r <==>
        p.0.Some?
        && (exists i :: 0 <= i < |rows| && ReleaseMonth(rows[i]) == p.0)
        && p.1 == CountWhere(rows, ReleaseMonth, p.0)
    {
      CountWhereOccurs(rows, ReleaseMonth, p.0);
      if p.0.Some? && CountWhere(rows, ReleaseMonth, p.0) > 0 {
        var i :| 0 <= i < |rows| && ReleaseMonth(rows[i]) == p.0;
        assert p.0 in MonthOrder;
      }
    }
    GroupCountFollowsOrder(rows, ReleaseMonth, MonthOrder, NumberBefore);
    GroupCountAddsUp(rows, ReleaseMonth, MonthOrder);
    ListedIsFiltered(rows, ReleaseMonth, MonthOrder, IsDated);
  }

  // ---------------------------------------------------------------------------
  // Visualization 7: releases and total Hours Viewed by weekday, Monday..Sunday

  function WeekdayReleases(rows: seq<Record>): seq<Option<nat>> {
    ReindexCount(rows, WeekdayOf, WeekdayOrder)
  }

  function WeekdayViewership(rows: seq<Record>): seq<Option<real>> {
    ReindexSum(rows, WeekdayOf, WeekdayOrder)
  }

  /** Seven entries, Monday to Sunday; an entry is missing exactly when
      nothing was released on that weekday and otherwise holds the number of
      releases; the present counts add up to the number of dated rows. */
  lemma WeekdayReleasesSpec(rows: seq<Record>)
    ensures var r := WeekdayReleases(rows);
      && |r| == 7
      && (forall i | 0 <= i < 7 ::
            (r[i] == None <==> forall j | 0 <= j < |rows| :: WeekdayOf(rows[j]) != WeekdayOrder[i])
            && (r[i].Some? ==> r[i].value == CountWhere(rows, WeekdayOf, WeekdayOrder[i]) > 0))
      && SumPresentCounts(r) == |Dated(rows)|
  {
    WeekdayOrderListsDated(rows);
    ReindexCountSpec(rows, WeekdayOf, WeekdayOrder);
    ListedIsFiltered(rows, WeekdayOf, WeekdayOrder, IsDated);
  }

  /** Seven entries, Monday to Sunday; an entry is missing exactly when
      nothing was released on that weekday and otherwise holds that weekday's
      total; the present entries add up to the total Hours Viewed of the dated
      rows. */
  lemma WeekdayViewershipSpec(rows: seq<Record>)
    ensures var r := WeekdayViewership(rows);
      && |r| == 7
      && (forall i | 0 <= i < 7 ::
            (r[i] == None <==> forall j | 0 <= j < |rows| :: WeekdayOf(rows[j]) != WeekdayOrder[i])
            && (r[i].Some? ==> r[i].value == HoursWhere(rows, WeekdayOf, WeekdayOrder[i])))
      && SumPresent(r) == Total(Dated(rows))
  {
    WeekdayOrderListsDated(rows);
    ReindexSumSpec(rows, WeekdayOf, WeekdayOrder);
    ListedIsFiltered(rows, WeekdayOf, WeekdayOrder, IsDated);
  }
}
