/**
 * Group-by aggregation over the rows of the table.  A grouping is given by a
 * key function (the column grouped on) and an order of keys in which the
 * groups are presented: pandas sorts the group keys, and `reindex` puts them
 * in a fixed canonical order.  Groups are formed only for keys that occur in
 * some row; a reindexed key with no rows gets a missing value (NaN in pandas,
 * None here).
 */
module Grouping {
  import opened Records
  import opened Wrappers

  /** Numeric keys (months, day numbers) ascend; the missing key is not
      ordered against anything. */
  predicate NumberBefore(a: Option<int>, b: Option<int>) {
    a.Some? && b.Some? && a.value < b.value
  }

  /** The total Hours Viewed of the rows. */
  function Total(rows: seq<Record>): real {
    if rows == [] then 0.0
    else Total(rows[..|rows| - 1]) + rows[|rows| - 1].hoursViewed
  }

  /** The Hours Viewed summed over the rows whose key is k: one group of
      `groupby(key)['Hours Viewed'].sum()`. */
  function HoursWhere<K(==,!new)>(rows: seq<Record>, key: Record -> K, k: K): real {
    if rows == [] then 0.0
    else
      var last := rows[|rows| - 1];
      HoursWhere(rows[..|rows| - 1], key, k) + (if key(last) == k then last.hoursViewed else 0.0)
  }

  /** The number of rows whose key is k: one entry of `value_counts()`. */
  function CountWhere<K(==,!new)>(rows: seq<Record>, key: Record -> K, k: K): nat {
    if rows == [] then 0
    else CountWhere(rows[..|rows| - 1], key, k) + (if key(rows[|rows| - 1]) == k then 1 else 0)
  }

  predicate Distinct<K(==,!new)>(ks: seq<K>) {
    forall i, j | 0 <= i < j < |ks| :: ks[i] != ks[j]
  }

  /** Every row's key is one of the keys listed in order. */
  predicate Covers<K(==,!new)>(rows: seq<Record>, key: Record -> K, order: seq<K>) {
    forall i | 0 <= i < |rows| :: key(rows[i]) in order
  }

  /** The total Hours Viewed of the rows whose key is listed in order: the
      rows a grouping over order does not drop. */
  function TotalListed<K(==,!new)>(rows: seq<Record>, key: Record -> K, order: seq<K>): real {
    if rows == [] then 0.0
    else
      var last := rows[|rows| - 1];
      TotalListed(rows[..|rows| - 1], key, order) + (if key(last) in order then last.hoursViewed else 0.0)
  }

  /** The number of rows whose key is listed in order. */
  function CountListed<K(==,!new)>(rows: seq<Record>, key: Record -> K, order: seq<K>): nat {
    if rows == [] then 0
    else CountListed(rows[..|rows| - 1], key, order) + (if key(rows[|rows| - 1]) in order then 1 else 0)
  }

  /** The rows that pass keep, in table order: a boolean row selection
      `df[mask]`. */
  function Filter(rows: seq<Record>, keep: Record -> bool): (r: seq<Record>)
    ensures |r| <= |rows|
    ensures forall x | x in r :: keep(x)
  {
    if rows == [] then []
    else
      var last := rows[|rows| - 1];
      Filter(rows[..|rows| - 1], keep) + (if keep(last) then [last] else [])
  }

  /** A selection keeps every row that passes, as often as it occurs, and
      drops every other row. */
  lemma {:induction false} FilterKeepsExactly(rows: seq<Record>, keep: Record -> bool)
    ensures forall x :: multiset(Filter(rows, keep))[x] == (if keep(x) then multiset(rows)[x] else 0)
  {
    if rows != [] {
      var init, last := rows[..|rows| - 1], rows[|rows| - 1];
      FilterKeepsExactly(init, keep);
      assert rows == init + [last];
    }
  }

  /** A selection works piece by piece: the rows kept from a + b are those
      kept from a followed by those kept from b, so the kept rows stay in
      table order. */
  lemma {:induction false} FilterAppend(a: seq<Record>, b: seq<Record>, keep: Record -> bool)
    ensures Filter(a + b, keep) == Filter(a, keep) + Filter(b, keep)
  {
    if b == [] {
      assert a + b == a;
    } else {
      var init, last := b[..|b| - 1], b[|b| - 1];
      assert (a + b)[..|a + b| - 1] == a + init && (a + b)[|a + b| - 1] == last;
      FilterAppend(a, init, keep);
    }
  }

  /** A single row is kept exactly when it passes. */
  lemma FilterOne(x: Record, keep: Record -> bool)
    ensures Filter([x], keep) == if keep(x) then [x] else []
  {
    assert [x][..0] == [];
  }

  /** When a key is listed exactly for the rows that pass keep, the listed
      rows are the selected ones. */
  lemma {:induction false} ListedIsFiltered<K(!new)>(rows: seq<Record>, key: Record -> K, order: seq<K>, keep: Record -> bool)
    requires forall i | 0 <= i < |rows| :: key(rows[i]) in order <==> keep(rows[i])
    ensures TotalListed(rows, key, order) == Total(Filter(rows, keep))
    ensures CountListed(rows, key, order) == |Filter(rows, keep)|
  {
    if rows != [] {
      var init, last := rows[..|rows| - 1], rows[|rows| - 1];
      assert forall i | 0 <= i < |init| :: init[i] == rows[i];
      ListedIsFiltered(init, key, order, keep);
      var kept := Filter(init, keep);
      if keep(last) {
        var k := kept + [last];
        assert k[..|k| - 1] == kept;
      } else {
        assert Filter(rows, keep) == kept + [] == kept;
      }
    }
  }

  /** When every key is listed, no row is dropped. */
  lemma {:induction false} ListedWhenCovered<K(!new)>(rows: seq<Record>, key: Record -> K, order: seq<K>)
    requires Covers(rows, key, order)
    ensures TotalListed(rows, key, order) == Total(rows)
    ensures CountListed(rows, key, order) == |rows|
  {
    if rows != [] {
      var init := rows[..|rows| - 1];
      assert forall i | 0 <= i < |init| :: init[i] == rows[i];
      ListedWhenCovered(init, key, order);
    }
  }

  /** A group exists exactly when some row carries its key. */
  lemma {:induction false} CountWhereOccurs<K(!new)>(rows: seq<Record>, key: Record -> K, k: K)
    ensures CountWhere(rows, key, k) > 0 <==> exists i :: 0 <= i < |rows| && key(rows[i]) == k
  {
    if rows != [] {
      var init := rows[..|rows| - 1];
      CountWhereOccurs(init, key, k);
      if CountWhere(init, key, k) > 0 {
        var i :| 0 <= i < |init| && key(init[i]) == k;
        assert rows[i] == init[i];
      }
      if exists i :: 0 <= i < |rows| && key(rows[i]) == k {
        var i :| 0 <= i < |rows| && key(rows[i]) == k;
        if i < |init| {
          assert init[i] == rows[i];
        }
      }
    }
  }

  /** A key carried by no row has an empty group, whose sum is 0. */
  lemma {:induction false} AbsentGroupHasNoHours<K(!new)>(rows: seq<Record>, key: Record -> K, k: K)
    requires CountWhere(rows, key, k) == 0
    ensures HoursWhere(rows, key, k) == 0.0
  {
    if rows != [] {
      AbsentGroupHasNoHours(rows[..|rows| - 1], key, k);
    }
  }

  // ---------------------------------------------------------------------------
  // groupby(...).sum() and value_counts(), presented in a given key order

  /** The groups of a group-by sum, one per key of order that occurs in some
      row, each holding its group's total, in the order of order. */
  function GroupSum<K(==,!new)>(rows: seq<Record>, key: Record -> K, order: seq<K>): (r: seq<(K, real)>)
    ensures forall p :: p in r <==>
      p.0 in order && CountWhere(rows, key, p.0) > 0 && p.1 == HoursWhere(rows, key, p.0)
  {
    if order == [] then []
    else
      var k := order[0];
      (if CountWhere(rows, key, k) > 0 then [(k, HoursWhere(rows, key, k))] else [])
      + GroupSum(rows, key, order[1..])
  }

  /** The groups of a row count, one per key of order that occurs in some row,
      each holding its number of rows, in the order of order. */
  function GroupCount<K(==,!new)>(rows: seq<Record>, key: Record -> K, order: seq<K>): (r: seq<(K, nat)>)
    ensures forall p :: p in r <==>
      p.0 in order && p.1 > 0 && p.1 == CountWhere(rows, key, p.0)
  {
    if order == [] then []
    else
      var k := order[0];
      (if CountWhere(rows, key, k) > 0 then [(k, CountWhere(rows, key, k))] else [])
      + GroupCount(rows, key, order[1..])
  }

  function SumValues<K>(ps: seq<(K, real)>): real {
    if ps == [] then 0.0 else ps[0].1 + SumValues(ps[1..])
  }

  function SumCounts<K>(ps: seq<(K, nat)>): nat {
    if ps == [] then 0 else ps[0].1 + SumCounts(ps[1..])
  }

  /** The keys of the groups ps are strictly ordered by less. */
  predicate KeysOrderedBy<K, V>(ps: seq<(K, V)>, less: (K, K) -> bool) {
    forall i, j | 0 <= i < j < |ps| :: less(ps[i].0, ps[j].0)
  }

  /** When the key order is strictly ordered by less, so are the group keys:
      grouping keeps the presentation order. */
  lemma {:induction false} GroupSumFollowsOrder<K(!new)>(
    rows: seq<Record>, key: Record -> K, order: seq<K>, less: (K, K) -> bool)
    requires forall i, j | 0 <= i < j < |order| :: less(order[i], order[j])
    ensures KeysOrderedBy(GroupSum(rows, key, order), less)
  {
    if order != [] {
      var r, rest := GroupSum(rows, key, order), GroupSum(rows, key, order[1..]);
      GroupSumFollowsOrder(rows, key, order[1..], less);
      if CountWhere(rows, key, order[0]) > 0 {
        assert r == [(order[0], HoursWhere(rows, key, order[0]))] + rest;
        forall j | 0 < j < |r|
          ensures less(r[0].0, r[j].0)
        {
          assert r[j] == rest[j - 1] && r[j] in rest;
          var m :| 0 <= m < |order[1..]| && order[1..][m] == r[j].0;
          assert order[m + 1] == r[j].0;
        }
      }
    }
  }


  /** The same for the groups of a row count. */
  lemma {:induction false} GroupCountFollowsOrder<K(!new)>(
    rows: seq<Record>, key: Record -> K, order: seq<K>, less: (K, K) -> bool)
    requires forall i, j | 0 <= i < j < |order| :: less(order[i], order[j])
    ensures KeysOrderedBy(GroupCount(rows, key, order), less)
  {
    if order != [] {
      var r, rest := GroupCount(rows, key, order), GroupCount(rows, key, order[1..]);
      GroupCountFollowsOrder(rows, key, order[1..], less);
      if CountWhere(rows, key, order[0]) > 0 {
        assert r == [(order[0], CountWhere(rows, key, order[0]))] + rest;
        forall j | 0 < j < |r|
          ensures less(r[0].0, r[j].0)
        {
          assert r[j] == rest[j - 1] && r[j] in rest;
          var m :| 0 <= m < |order[1..]| && order[1..][m] == r[j].0;
          assert order[m + 1] == r[j].0;
        }
      }
    }
  }


  /** Sum of the group totals of the keys of order, present or not. */
  function HoursOverKeys<K(==,!new)>(rows: seq<Record>, key: Record -> K, order: seq<K>): real {
    if order == [] then 0.0 else HoursWhere(rows, key, order[0]) + HoursOverKeys(rows, key, order[1..])
  }

  /** Sum of the group counts of the keys of order, present or not. */
  function CountOverKeys<K(==,!new)>(rows: seq<Record>, key: Record -> K, order: seq<K>): nat {
    if order == [] then 0 else CountWhere(rows, key, order[0]) + CountOverKeys(rows, key, order[1..])
  }

  lemma {:induction false} GroupSumIsHoursOverKeys<K(!new)>(rows: seq<Record>, key: Record -> K, order: seq<K>)
    ensures SumValues(GroupSum(rows, key, order)) == HoursOverKeys(rows, key, order)
  {
    if order != [] {
      var k := order[0];
      var head := if CountWhere(rows, key, k) > 0 then [(k, HoursWhere(rows, key, k))] else [];
      var rest := GroupSum(rows, key, order[1..]);
      assert GroupSum(rows, key, order) == head + rest;
      SumValuesAppend(head, rest);
      GroupSumIsHoursOverKeys(rows, key, order[1..]);
      if CountWhere(rows, key, k) == 0 {
        AbsentGroupHasNoHours(rows, key, k);
      }
    }
  }

  lemma {:induction false} SumValuesAppend<K>(a: seq<(K, real)>, b: seq<(K, real)>)
    ensures SumValues(a + b) == SumValues(a) + SumValues(b)
  {
    if a == [] {
      assert a + b == b;
    } else {
      assert (a + b)[1..] == a[1..] + b;
      SumValuesAppend(a[1..], b);
    }
  }

  lemma {:induction false} SumCountsAppend<K>(a: seq<(K, nat)>, b: seq<(K, nat)>)
    ensures SumCounts(a + b) == SumCounts(a) + SumCounts(b)
  {
    if a == [] {
      assert a + b == b;
    } else {
      assert (a + b)[1..] == a[1..] + b;
      SumCountsAppend(a[1..], b);
    }
  }

  lemma {:induction false} GroupCountIsCountOverKeys<K(!new)>(rows: seq<Record>, key: Record -> K, order: seq<K>)
    ensures SumCounts(GroupCount(rows, key, order)) == CountOverKeys(rows, key, order)
  {
    if order != [] {
      var k := order[0];
      var head := if CountWhere(rows, key, k) > 0 then [(k, CountWhere(rows, key, k))] else [];
      var rest := GroupCount(rows, key, order[1..]);
      assert GroupCount(rows, key, order) == head + rest;
      SumCountsAppend(head, rest);
      GroupCountIsCountOverKeys(rows, key, order[1..]);
    }
  }

  /** Adding one row to the table adds its hours to exactly one key of a
      duplicate-free order, if its key is listed there at all. */
  lemma {:induction false} HoursOverKeysSnoc<K(!new)>(rows: seq<Record>, x: Record, key: Record -> K, order: seq<K>)
    requires Distinct(order)
    ensures HoursOverKeys(rows + [x], key, order)
      == HoursOverKeys(rows, key, order) + (if key(x) in order then x.hoursViewed else 0.0)
  {
    assert (rows + [x])[..|rows + [x]| - 1] == rows;
    if order != [] {
      HoursOverKeysSnoc(rows, x, key, order[1..]);
      assert key(x) == order[0] ==> key(x) !in order[1..];
    }
  }

  lemma {:induction false} CountOverKeysSnoc<K(!new)>(rows: seq<Record>, x: Record, key: Record -> K, order: seq<K>)
    requires Distinct(order)
    ensures CountOverKeys(rows + [x], key, order)
      == CountOverKeys(rows, key, order) + (if key(x) in order then 1 else 0)
  {
    assert (rows + [x])[..|rows + [x]| - 1] == rows;
    if order != [] {
      CountOverKeysSnoc(rows, x, key, order[1..]);
      assert key(x) == order[0] ==> key(x) !in order[1..];
    }
  }

  lemma {:induction false} HoursOverKeysIsTotalListed<K(!new)>(rows: seq<Record>, key: Record -> K, order: seq<K>)
    requires Distinct(order)
    ensures HoursOverKeys(rows, key, order) == TotalListed(rows, key, order)
  {
    if rows == [] {
      HoursOverKeysOfNoRows(key, order);
    } else {
      var init, x := rows[..|rows| - 1], rows[|rows| - 1];
      assert rows == init + [x];
      HoursOverKeysIsTotalListed(init, key, order);
      HoursOverKeysSnoc(init, x, key, order);
    }
  }

  lemma {:induction false} CountOverKeysIsCountListed<K(!new)>(rows: seq<Record>, key: Record -> K, order: seq<K>)
    requires Distinct(order)
    ensures CountOverKeys(rows, key, order) == CountListed(rows, key, order)
  {
    if rows == [] {
      CountOverKeysOfNoRows(key, order);
    } else {
      var init, x := rows[..|rows| - 1], rows[|rows| - 1];
      assert rows == init + [x];
      CountOverKeysIsCountListed(init, key, order);
      CountOverKeysSnoc(init, x, key, order);
    }
  }

  lemma {:induction false} HoursOverKeysOfNoRows<K(!new)>(key: Record -> K, order: seq<K>)
    ensures HoursOverKeys([], key, order) == 0.0
  {
    if order != [] {
      HoursOverKeysOfNoRows(key, order[1..]);
    }
  }

  lemma {:induction false} CountOverKeysOfNoRows<K(!new)>(key: Record -> K, order: seq<K>)
    ensures CountOverKeys([], key, order) == 0
  {
    if order != [] {
      CountOverKeysOfNoRows(key, order[1..]);
    }
  }

  /** Grouping partitions the rows it keeps: when the key order lists each key
      once, the group totals add up to the total Hours Viewed of the rows whose
      key is listed (all rows, when every key is listed). */
  lemma GroupSumAddsUp<K(!new)>(rows: seq<Record>, key: Record -> K, order: seq<K>)
    requires Distinct(order)
    ensures SumValues(GroupSum(rows, key, order)) == TotalListed(rows, key, order)
  {
    GroupSumIsHoursOverKeys(rows, key, order);
    HoursOverKeysIsTotalListed(rows, key, order);
  }

  /** The same for counts: the group sizes add up to the number of rows whose
      key is listed. */
  lemma GroupCountAddsUp<K(!new)>(rows: seq<Record>, key: Record -> K, order: seq<K>)
    requires Distinct(order)
    ensures SumCounts(GroupCount(rows, key, order)) == CountListed(rows, key, order)
  {
    GroupCountIsCountOverKeys(rows, key, order);
    CountOverKeysIsCountListed(rows, key, order);
  }

  // ---------------------------------------------------------------------------
  // reindex(order): one entry per key of order, missing where no row has it

  function ReindexSum<K(==,!new)>(rows: seq<Record>, key: Record -> K, order: seq<K>): (r: seq<Option<real>>)
    ensures |r| == |order|
  {
    seq(|order|, i requires 0 <= i < |order| =>
      if CountWhere(rows, key, order[i]) > 0 then Some(HoursWhere(rows, key, order[i])) else None)
  }

  function ReindexCount<K(==,!new)>(rows: seq<Record>, key: Record -> K, order: seq<K>): (r: seq<Option<nat>>)
    ensures |r| == |order|
  {
    seq(|order|, i requires 0 <= i < |order| =>
      if CountWhere(rows, key, order[i]) > 0 then Some(CountWhere(rows, key, order[i])) else None)
  }

  /** The present entries of a reindexed sum, missing ones counted as 0. */
  function SumPresent(xs: seq<Option<real>>): real {
    if xs == [] then 0.0 else (if xs[0].Some? then xs[0].value else 0.0) + SumPresent(xs[1..])
  }

  function SumPresentCounts(xs: seq<Option<nat>>): nat {
    if xs == [] then 0 else (if xs[0].Some? then xs[0].value else 0) + SumPresentCounts(xs[1..])
  }

  lemma {:induction false} ReindexSumIsHoursOverKeys<K(!new)>(rows: seq<Record>, key: Record -> K, order: seq<K>)
    ensures SumPresent(ReindexSum(rows, key, order)) == HoursOverKeys(rows, key, order)
  {
    if order != [] {
      assert ReindexSum(rows, key, order)[1..] == ReindexSum(rows, key, order[1..]);
      ReindexSumIsHoursOverKeys(rows, key, order[1..]);
      if CountWhere(rows, key, order[0]) == 0 {
        AbsentGroupHasNoHours(rows, key, order[0]);
      }
    }
  }

  lemma {:induction false} ReindexCountIsCountOverKeys<K(!new)>(rows: seq<Record>, key: Record -> K, order: seq<K>)
    ensures SumPresentCounts(ReindexCount(rows, key, order)) == CountOverKeys(rows, key, order)
  {
    if order != [] {
      assert ReindexCount(rows, key, order)[1..] == ReindexCount(rows, key, order[1..]);
      ReindexCountIsCountOverKeys(rows, key, order[1..]);
    }
  }

  /** A reindexed sum has one entry per listed key; the entry is missing
      exactly when no row has that key, and otherwise it is the group total.
      Over an order listing each key once, the present entries add up to the
      total Hours Viewed of the rows whose key is listed. */
  lemma ReindexSumSpec<K(!new)>(rows: seq<Record>, key: Record -> K, order: seq<K>)
    requires Distinct(order)
    ensures var r := ReindexSum(rows, key, order);
      && |r| == |order|
      && (forall i | 0 <= i < |order| ::
            (r[i] == None <==> forall j | 0 <= j < |rows| :: key(rows[j]) != order[i])
            && (r[i].Some? ==> r[i].value == HoursWhere(rows, key, order[i])))
      && SumPresent(r) == TotalListed(rows, key, order)
  {
    forall i | 0 <= i < |order| {
      CountWhereOccurs(rows, key, order[i]);
    }
    ReindexSumIsHoursOverKeys(rows, key, order);
    HoursOverKeysIsTotalListed(rows, key, order);
  }

  /** The same for a reindexed count: the present counts add up to the number
      of rows whose key is listed. */
  lemma ReindexCountSpec<K(!new)>(rows: seq<Record>, key: Record -> K, order: seq<K>)
    requires Distinct(order)
    ensures var r := ReindexCount(rows, key, order);
      && |r| == |order|
      && (forall i | 0 <= i < |order| ::
            (r[i] == None <==> forall j | 0 <= j < |rows| :: key(rows[j]) != order[i])
            && (r[i].Some? ==> r[i].value == CountWhere(rows, key, order[i]) > 0))
      && SumPresentCounts(r) == CountListed(rows, key, order)
  {
    forall i | 0 <= i < |order| {
      CountWhereOccurs(rows, key, order[i]);
    }
    ReindexCountIsCountOverKeys(rows, key, order);
    CountOverKeysIsCountListed(rows, key, order);
  }

  // ---------------------------------------------------------------------------
  // Aggregates do not depend on the order of the rows

  lemma {:induction false} HoursWhereAppend<K(!new)>(a: seq<Record>, b: seq<Record>, key: Record -> K, k: K)
    ensures HoursWhere(a + b, key, k) == HoursWhere(a, key, k) + HoursWhere(b, key, k)
  {
    if b == [] {
      assert a + b == a;
    } else {
      var init := b[..|b| - 1];
      assert (a + b)[..|a + b| - 1] == a + init;
      HoursWhereAppend(a, init, key, k);
    }
  }

  lemma {:induction false} CountWhereAppend<K(!new)>(a: seq<Record>, b: seq<Record>, key: Record -> K, k: K)
    ensures CountWhere(a + b, key, k) == CountWhere(a, key, k) + CountWhere(b, key, k)
  {
    if b == [] {
      assert a + b == a;
    } else {
      var init := b[..|b| - 1];
      assert (a + b)[..|a + b| - 1] == a + init;
      CountWhereAppend(a, init, key, k);
    }
  }

  /** Taking the last row out of a and one equal row out of b keeps the two
      tables rearrangements of each other. */
  lemma TakeOutMatchingRow<T>(a: seq<T>, b: seq<T>) returns (j: nat)
    requires a != [] && multiset(a) == multiset(b)
    ensures j < |b| && b[j] == a[|a| - 1]
    ensures multiset(a[..|a| - 1]) == multiset(b[..j] + b[j + 1..])
  {
    var init, x := a[..|a| - 1], a[|a| - 1];
    assert a == init + [x];
    assert x in multiset(b);
    j :| 0 <= j < |b| && b[j] == x;
    MultisetWithout(b, j);
    CancelOne(multiset(init), multiset(b[..j] + b[j + 1..]), x);
  }

  /** A sequence holds the elements of its parts before and after position j,
      plus the element at j. */
  lemma MultisetWithout<T>(b: seq<T>, j: nat)
    requires j < |b|
    ensures multiset(b) == multiset(b[..j] + b[j + 1..]) + multiset{b[j]}
  {
    assert b == b[..j] + [b[j]] + b[j + 1..];
  }

  lemma CancelOne<T>(m: multiset<T>, n: multiset<T>, x: T)
    requires m + multiset{x} == n + multiset{x}
    ensures m == n
  {
    assert m == m + multiset{x} - multiset{x};
    assert n == n + multiset{x} - multiset{x};
  }

  /** The group total and size of a table with one row x put in the middle. */
  lemma GroupsOfMiddleRow<K(!new)>(before: seq<Record>, x: Record, after: seq<Record>, key: Record -> K, k: K)
    ensures HoursWhere(before + [x] + after, key, k)
      == HoursWhere(before + after, key, k) + (if key(x) == k then x.hoursViewed else 0.0)
    ensures CountWhere(before + [x] + after, key, k)
      == CountWhere(before + after, key, k) + (if key(x) == k then 1 else 0)
  {
    HoursWhereAppend(before, after, key, k);
    HoursWhereAppend(before + [x], after, key, k);
    HoursWhereAppend(before, [x], key, k);
    CountWhereAppend(before, after, key, k);
    CountWhereAppend(before + [x], after, key, k);
    CountWhereAppend(before, [x], key, k);
    assert [x][..0] == [];
  }

  /** Rearranging the rows changes no group total and no group size. */
  lemma {:induction false} GroupsIgnoreRowOrder<K(!new)>(a: seq<Record>, b: seq<Record>, key: Record -> K, k: K)
    requires multiset(a) == multiset(b)
    ensures HoursWhere(a, key, k) == HoursWhere(b, key, k)
    ensures CountWhere(a, key, k) == CountWhere(b, key, k)
  {
    if a == [] {
      assert |b| == |multiset(b)| == 0;
    } else {
      var j := TakeOutMatchingRow(a, b);
      var before, after := b[..j], b[j + 1..];
      assert b == before + [b[j]] + after;
      GroupsIgnoreRowOrder(a[..|a| - 1], before + after, key, k);
      GroupsOfMiddleRow(before, b[j], after, key, k);
    }
  }

  /** Hence a reindexed aggregate depends only on which rows there are, not on
      the order they come in. */
  lemma ReindexIgnoresRowOrder<K(!new)>(a: seq<Record>, b: seq<Record>, key: Record -> K, order: seq<K>)
    requires multiset(a) == multiset(b)
    ensures ReindexSum(a, key, order) == ReindexSum(b, key, order)
    ensures ReindexCount(a, key, order) == ReindexCount(b, key, order)
  {
    forall i | 0 <= i < |order| {
      GroupsIgnoreRowOrder(a, b, key, order[i]);
    }
  }

  // ---------------------------------------------------------------------------
  // Keys in order of first appearance

  /** The distinct keys of the rows, each listed where it first occurs. */
  function KeysInOrder<K(==,!new)>(rows: seq<Record>, key: Record -> K): (ks: seq<K>)
    ensures Distinct(ks)
    ensures forall k :: k in ks <==> CountWhere(rows, key, k) > 0
  {
    if rows == [] then []
    else
      var ks := KeysInOrder(rows[..|rows| - 1], key);
      var k := key(rows[|rows| - 1]);
      if k in ks then ks else ks + [k]
  }

  lemma KeysInOrderCovers<K(!new)>(rows: seq<Record>, key: Record -> K)
    ensures Covers(rows, key, KeysInOrder(rows, key))
  {
    forall i | 0 <= i < |rows|
      ensures key(rows[i]) in KeysInOrder(rows, key)
    {
      CountWhereOccurs(rows, key, key(rows[i]));
    }
  }
}
