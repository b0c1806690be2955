/**
 * The "top titles" report: the five rows with the most Hours Viewed, largest
 * first. When hours tie, the row that comes earlier in the table wins
 * (pandas' nlargest with its default keep='first'). Rows are named by their
 * position in the table.
 */
module TopTitles {
  import opened Records

  /** Row i is ranked before row j: it has more hours, or the same hours and
      comes earlier in the table. */
  predicate RanksAbove(rows: seq<Record>, i: int, j: int) {
    0 <= i < |rows| && 0 <= j < |rows| &&
    (rows[i].hoursViewed > rows[j].hoursViewed ||
     (rows[i].hoursViewed == rows[j].hoursViewed && i < j))
  }

  /** Row positions listed strictly by rank. No position appears twice,
      because no row ranks above itself. */
  predicate RankOrdered(rows: seq<Record>, s: seq<nat>) {
    forall a, b | 0 <= a < b < |s| :: RanksAbove(rows, s[a], s[b])
  }

  /** Puts row position i into a rank-ordered list, before the first row it
      ranks above. */
  function InsertByRank(rows: seq<Record>, i: nat, s: seq<nat>): (r: seq<nat>)
    ensures |r| == |s| + 1
    ensures multiset(r) == multiset(s) + multiset{i}
  {
    if s == [] then [i]
    else if RanksAbove(rows, i, s[0]) then [i] + s
    else
      assert s == [s[0]] + s[1..];
      [s[0]] + InsertByRank(rows, i, s[1..])
  }

  lemma {:induction false} InsertByRankOrdered(rows: seq<Record>, i: nat, s: seq<nat>)
    requires i < |rows| && i !in s
    requires forall q | q in s :: q < |rows|
    requires RankOrdered(rows, s)
    ensures RankOrdered(rows, InsertByRank(rows, i, s))
  {
    if s == [] {
    } else if RanksAbove(rows, i, s[0]) {
      forall q | q in s
        ensures RanksAbove(rows, i, q)
      {
        var m :| 0 <= m < |s| && s[m] == q;
        if m > 0 {
          RanksAboveTransitive(rows, i, s[0], q);
        }
      }
      ConsOrdered(rows, i, s);
    } else {
      var t := InsertByRank(rows, i, s[1..]);
      InsertByRankOrdered(rows, i, s[1..]);
      InsertByRankMembers(rows, i, s[1..]);
      assert s[0] in s;
      forall q | q in t
        ensures RanksAbove(rows, s[0], q)
      {
        if q != i {
          var m :| 0 <= m < |s[1..]| && s[1..][m] == q;
          assert s[m + 1] == q;
        }
      }
      ConsOrdered(rows, s[0], t);
    }
  }

  /** A rank-ordered list stays rank-ordered with a row ranked above all of
      its rows put in front. */
  lemma ConsOrdered(rows: seq<Record>, x: nat, t: seq<nat>)
    requires RankOrdered(rows, t)
    requires forall q | q in t :: RanksAbove(rows, x, q)
    ensures RankOrdered(rows, [x] + t)
  {
    var r := [x] + t;
    forall a, b | 0 <= a < b < |r|
      ensures RanksAbove(rows, r[a], r[b])
    {
      assert r[b] == t[b - 1] && r[b] in t;
      if a > 0 {
        assert r[a] == t[a - 1];
      }
    }
  }

  lemma RanksAboveTransitive(rows: seq<Record>, i: int, j: int, k: int)
    requires RanksAbove(rows, i, j) && RanksAbove(rows, j, k)
    ensures RanksAbove(rows, i, k)
  {
  }

  lemma InsertByRankMembers(rows: seq<Record>, i: nat, s: seq<nat>)
    ensures forall q: nat :: q in InsertByRank(rows, i, s) <==> q == i || q in s
  {
    var r := InsertByRank(rows, i, s);
    forall q: nat ensures q in r <==> q == i || q in s {
      assert q in r <==> q in multiset(r);
      assert q in s <==> q in multiset(s);
    }
  }

  /** The positions 0 .. n-1 of the table, ranked. */
  function Ranking(rows: seq<Record>, n: nat): (r: seq<nat>)
    requires n <= |rows|
    ensures |r| == n
    ensures forall q: nat :: q in r <==> q < n
    ensures RankOrdered(rows, r)
  {
    if n == 0 then []
    else
      var last: nat := n - 1;
      var prev := Ranking(rows, last);
      var r := InsertByRank(rows, last, prev);
      InsertByRankOrdered(rows, last, prev);
      InsertByRankMembers(rows, last, prev);
      r
  }

  /** df.nlargest(k, 'Hours Viewed'), as row positions. */
  function Largest(rows: seq<Record>, k: nat): (r: seq<nat>)
    ensures |r| == if k < |rows| then k else |rows|
  {
    var n := if k < |rows| then k else |rows|;
    Ranking(rows, |rows|)[..n]
  }

  /** The Top 5 Titles report. */
  function TopFive(rows: seq<Record>): (r: seq<nat>)
    ensures |r| <= 5 && |r| <= |rows|
  {
    Largest(rows, 5)
  }

  /** nlargest(k) picks min(k, number of rows) distinct rows, in order of
      non-increasing hours, rows with equal hours in table order; no row left
      out has more hours than a chosen one, and a left-out row with the same
      hours comes later in the table. */
  lemma LargestSpec(rows: seq<Record>, k: nat)
    ensures var r := Largest(rows, k);
      && |r| == (if k < |rows| then k else |rows|)
      && (forall a | 0 <= a < |r| :: r[a] < |rows|)
      && (forall a, b | 0 <= a < b < |r| :: r[a] != r[b])
      && (forall a, b | 0 <= a < b < |r| ::
            rows[r[a]].hoursViewed > rows[r[b]].hoursViewed ||
            (rows[r[a]].hoursViewed == rows[r[b]].hoursViewed && r[a] < r[b]))
      && (forall j, a | 0 <= j < |rows| && j !in r && 0 <= a < |r| ::
            rows[j].hoursViewed < rows[r[a]].hoursViewed ||
            (rows[j].hoursViewed == rows[r[a]].hoursViewed && r[a] < j))
  {
    var all := Ranking(rows, |rows|);
    var r := Largest(rows, k);
    assert r == all[..|r|];
    forall a | 0 <= a < |r| ensures r[a] == all[a] && r[a] < |rows| {
      assert all[a] in all;
    }
    forall a, b | 0 <= a < b < |r|
      ensures RanksAbove(rows, r[a], r[b])
    {
      assert r[a] == all[a] && r[b] == all[b];
    }
    forall j, a | 0 <= j < |rows| && j !in r && 0 <= a < |r|
      ensures RanksAbove(rows, r[a], j)
    {
      assert j in all;
      var p :| 0 <= p < |all| && all[p] == j;
      assert forall q | 0 <= q < |r| :: all[q] in r;
      assert r[a] == all[a];
    }
  }

  /** Every row position is chosen by nlargest(k) when k covers the whole
      table. */
  lemma LargestOfWholeTable(rows: seq<Record>, k: nat)
    requires |rows| <= k
    ensures forall j: nat :: j in Largest(rows, k) <==> j < |rows|
  {
    assert Largest(rows, k) == Ranking(rows, |rows|);
  }

  /** The rows the report shows: title and hours of each chosen row. */
  function TopFiveTitles(rows: seq<Record>): (r: seq<(string, real)>)
    ensures |r| == |TopFive(rows)| <= 5
    ensures forall a | 0 <= a < |r| ::
      TopFive(rows)[a] < |rows| && r[a] == (rows[TopFive(rows)[a]].title, rows[TopFive(rows)[a]].hoursViewed)
  {
    var top := TopFive(rows);
    LargestSpec(rows, 5);
    seq(|top|, a requires 0 <= a < |top| => (rows[top[a]].title, rows[top[a]].hoursViewed))
  }
}
