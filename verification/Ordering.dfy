/** ORDER BY: rows scanned in any order, sorted by a comparison that may leave ties. */
module Ordering {

  /** A comparison fit for ORDER BY. */
  ghost predicate StrictWeakOrder<T(!new)>(before: (T, T) -> bool) {
    && (forall x :: !before(x, x))
    && (forall x, y :: before(x, y) ==> !before(y, x))
    && (forall x, y, z :: !before(y, x) && !before(z, y) ==> !before(z, x))
  }

  ghost predicate Sorted<T>(xs: seq<T>, before: (T, T) -> bool) {
    forall i, j :: 0 <= i < j < |xs| ==> !before(xs[j], xs[i])
  }

  function Insert<T>(x: T, xs: seq<T>, before: (T, T) -> bool): seq<T> {
    if xs == [] || before(x, xs[0]) then [x] + xs else [xs[0]] + Insert(x, xs[1..], before)
  }

  /** Stable insertion sort. */
  function SortBy<T>(xs: seq<T>, before: (T, T) -> bool): seq<T> {
    if xs == [] then [] else Insert(xs[|xs| - 1], SortBy(xs[..|xs| - 1], before), before)
  }

  lemma {:induction false} InsertKeepsRows<T>(x: T, xs: seq<T>, before: (T, T) -> bool)
    ensures multiset(Insert(x, xs, before)) == multiset(xs) + multiset{x}
  {
    if xs != [] && !before(x, xs[0]) {
      InsertKeepsRows(x, xs[1..], before);
      assert xs == [xs[0]] + xs[1..];
    }
  }

  lemma {:induction false} InsertKeepsSorted<T(!new)>(x: T, xs: seq<T>, before: (T, T) -> bool)
    requires StrictWeakOrder(before) && Sorted(xs, before)
    ensures Sorted(Insert(x, xs, before), before)
  {
    if xs == [] {
    } else if before(x, xs[0]) {
      var out := [x] + xs;
      forall i, j | 0 <= i < j < |out| ensures !before(out[j], out[i]) {
        if i == 0 && j > 1 { assert !before(xs[j - 1], xs[0]) && !before(xs[0], x); }
      }
    } else {
      var rest := Insert(x, xs[1..], before);
      InsertKeepsSorted(x, xs[1..], before);
      InsertKeepsRows(x, xs[1..], before);
      forall j | 0 <= j < |rest| ensures !before(rest[j], xs[0]) {
        assert rest[j] in multiset(rest);
        if rest[j] != x {
          assert rest[j] in xs[1..];
          var k :| 0 <= k < |xs[1..]| && xs[1..][k] == rest[j];
          assert xs[k + 1] == rest[j];
        }
      }
    }
  }

  /** The result is a sorted permutation of the rows. */
  lemma {:induction false} SortBySorts<T(!new)>(xs: seq<T>, before: (T, T) -> bool)
    requires StrictWeakOrder(before)
    ensures multiset(SortBy(xs, before)) == multiset(xs) && Sorted(SortBy(xs, before), before)
  {
    if xs != [] {
      var front, last := xs[..|xs| - 1], xs[|xs| - 1];
      SortBySorts(front, before);
      InsertKeepsRows(last, SortBy(front, before), before);
      InsertKeepsSorted(last, SortBy(front, before), before);
      assert xs == front + [last];
    }
  }

  /** Rows already in order keep their order: the sort is stable. */
  lemma {:induction false} SortByOfSorted<T(!new)>(xs: seq<T>, before: (T, T) -> bool)
    requires Sorted(xs, before)
    ensures SortBy(xs, before) == xs
  {
    if xs != [] {
      var front, last := xs[..|xs| - 1], xs[|xs| - 1];
      SortByOfSorted(front, before);
      InsertLast(last, front, before);
      assert xs == front + [last];
    }
  }

  lemma {:induction false} InsertLast<T>(x: T, xs: seq<T>, before: (T, T) -> bool)
    requires forall i :: 0 <= i < |xs| ==> !before(x, xs[i])
    ensures Insert(x, xs, before) == xs + [x]
  {
    if xs != [] {
      InsertLast(x, xs[1..], before);
      assert xs + [x] == [xs[0]] + (xs[1..] + [x]);
    }
  }

  /** An element found at two places is counted twice. */
  lemma TwicePlaced<T>(xs: seq<T>, i: nat, j: nat)
    requires i < j < |xs| && xs[i] == xs[j]
    ensures multiset(xs)[xs[i]] >= 2
  {
    assert xs == xs[..i] + [xs[i]] + xs[i + 1..j] + [xs[j]] + xs[j + 1..];
  }

  // ---------------------------------------------------------- ids of a keyed table

  predicate Distinct<T(==)>(xs: seq<T>) {
    forall i, j :: 0 <= i < j < |xs| ==> xs[i] != xs[j]
  }

  /** The ids of rows, in the order of the rows. */
  method SortIds<T(!new)>(rows: map<string, T>, ids: seq<string>, before: (T, T) -> bool) returns (out: seq<string>)
    requires StrictWeakOrder(before)
    requires (forall id :: id in ids ==> id in rows) && Distinct(ids)
    ensures (forall id :: id in out <==> id in ids) && Distinct(out)
    ensures forall i, j :: 0 <= i < j < |out| ==>
              out[i] in rows && out[j] in rows && !before(rows[out[j]], rows[out[i]])
  {
    var pairs := seq(|ids|, i requires 0 <= i < |ids| && ids[i] in rows => (ids[i], rows[ids[i]]));
    var byRow := (a: (string, T), b: (string, T)) => before(a.1, b.1);
    var sorted := SortBy(pairs, byRow);
    PairsAreOrdered(before, byRow);
    SortBySorts(pairs, byRow);
    out := seq(|sorted|, i requires 0 <= i < |sorted| => sorted[i].0);
    SameIds(rows, ids, pairs, sorted, out);
    forall i, j | 0 <= i < j < |out|
      ensures out[i] in rows && out[j] in rows && !before(rows[out[j]], rows[out[i]])
    {
      assert !byRow(sorted[j], sorted[i]);
    }
  }

  lemma PairsAreOrdered<T(!new)>(before: (T, T) -> bool, byRow: ((string, T), (string, T)) -> bool)
    requires StrictWeakOrder(before)
    requires forall a: (string, T), b: (string, T) :: byRow(a, b) == before(a.1, b.1)
    ensures StrictWeakOrder(byRow)
  {
    forall x: (string, T) ensures !byRow(x, x) {
      assert byRow(x, x) == before(x.1, x.1);
    }
    forall x: (string, T), y: (string, T) | byRow(x, y) ensures !byRow(y, x) {
      assert before(x.1, y.1);
    }
    forall x: (string, T), y: (string, T), z: (string, T) | !byRow(y, x) && !byRow(z, y) ensures !byRow(z, x) {
      assert !before(y.1, x.1) && !before(z.1, y.1);
    }
  }

  lemma SameIds<T>(
    rows: map<string, T>, ids: seq<string>, pairs: seq<(string, T)>, sorted: seq<(string, T)>, out: seq<string>)
    requires |pairs| == |ids| && |out| == |sorted| && multiset(sorted) == multiset(pairs)
    requires forall i :: 0 <= i < |ids| ==> ids[i] in rows && pairs[i] == (ids[i], rows[ids[i]])
    requires forall i :: 0 <= i < |out| ==> out[i] == sorted[i].0
    requires Distinct(ids)
    ensures (forall id :: id in out <==> id in ids) && Distinct(out)
    ensures forall i :: 0 <= i < |out| ==> out[i] in rows && sorted[i].1 == rows[out[i]]
  {
    forall i | 0 <= i < |out| ensures out[i] in ids && out[i] in rows && sorted[i].1 == rows[out[i]] {
      assert sorted[i] in multiset(pairs);
      var k :| 0 <= k < |pairs| && pairs[k] == sorted[i];
    }
    forall id | id in ids ensures id in out {
      var k :| 0 <= k < |ids| && ids[k] == id;
      assert pairs[k] in multiset(sorted);
      var m :| 0 <= m < |sorted| && sorted[m] == pairs[k];
      assert out[m] == id;
    }
    DistinctStays(pairs, sorted);
  }

  lemma {:induction false} CountAtMostOnce<T>(pairs: seq<(string, T)>, p: (string, T))
    requires forall i, j :: 0 <= i < j < |pairs| ==> pairs[i].0 != pairs[j].0
    ensures multiset(pairs)[p] <= 1
  {
    if pairs != [] {
      var front, last := pairs[..|pairs| - 1], pairs[|pairs| - 1];
      assert pairs == front + [last];
      CountAtMostOnce(front, p);
      forall k | 0 <= k < |front| ensures front[k] != last {
        assert pairs[k].0 != pairs[|pairs| - 1].0;
      }
    }
  }

  lemma DistinctStays<T>(pairs: seq<(string, T)>, sorted: seq<(string, T)>)
    requires multiset(pairs) == multiset(sorted)
    requires forall i, j :: 0 <= i < j < |pairs| ==> pairs[i].0 != pairs[j].0
    ensures forall i, j :: 0 <= i < j < |sorted| ==> sorted[i].0 != sorted[j].0
  {
    forall i, j | 0 <= i < j < |sorted| ensures sorted[i].0 != sorted[j].0 {
      CountAtMostOnce(pairs, sorted[i]);
      if sorted[i] == sorted[j] { TwicePlaced(sorted, i, j); }
      assert sorted[i] in multiset(pairs) && sorted[j] in multiset(pairs);
      var a :| 0 <= a < |pairs| && pairs[a] == sorted[i];
      var b :| 0 <= b < |pairs| && pairs[b] == sorted[j];
      assert a != b;
    }
  }
}
