/**
 * `sort_values(...)` and `head(n)` over grouped tables, and the dense
 * 1-based rank the causes view attaches. Rows are ordered by a rank of
 * two integers compared lexicographically: by count for the top-N views,
 * by code (then by descending count) for the department views.
 */
module Ranking {
  import opened Grouping

  predicate LexLe(a: (int, int), b: (int, int)) {
    a.0 < b.0 || (a.0 == b.0 && a.1 <= b.1)
  }

  predicate SortedBy<K>(rows: seq<(K, nat)>, rank: ((K, nat)) -> (int, int)) {
    forall i, j :: 0 <= i < j < |rows| ==> LexLe(rank(rows[i]), rank(rows[j]))
  }

  /** `sort_values(..., ascending=False)` on the count column. */
  function ByCountDesc<K>(row: (K, nat)): (int, int) {
    var down: int := 0 - row.1 as int;
    (down, 0)
  }

  /** `sort_values(..., ascending=True)` on the count column. */
  function ByCountAsc<K>(row: (K, nat)): (int, int) { (row.1, 0) }

  lemma KeySetCons<K>(x: (K, nat), rows: seq<(K, nat)>)
    ensures KeySet([x] + rows) == {x.0} + KeySet(rows)
  {
    var r := [x] + rows;
    assert r[0] == x;
    forall j | 0 <= j < |rows| ensures rows[j] == r[j + 1] { }
  }

  function Insert<K>(x: (K, nat), rows: seq<(K, nat)>, rank: ((K, nat)) -> (int, int)): seq<(K, nat)> {
    if rows == [] then [x]
    else if LexLe(rank(x), rank(rows[0])) then [x] + rows
    else [rows[0]] + Insert(x, rows[1..], rank)
  }

  lemma {:induction false} InsertPerm<K>(x: (K, nat), rows: seq<(K, nat)>, rank: ((K, nat)) -> (int, int))
    ensures |Insert(x, rows, rank)| == |rows| + 1
    ensures multiset(Insert(x, rows, rank)) == multiset(rows) + multiset{x}
    ensures Total(Insert(x, rows, rank)) == x.1 + Total(rows)
  {
    if rows != [] && !LexLe(rank(x), rank(rows[0])) {
      assert rows == [rows[0]] + rows[1..];
      InsertPerm(x, rows[1..], rank);
    }
  }

  lemma {:induction false} InsertSorted<K>(x: (K, nat), rows: seq<(K, nat)>, rank: ((K, nat)) -> (int, int))
    requires SortedBy(rows, rank)
    ensures SortedBy(Insert(x, rows, rank), rank)
  {
    if rows != [] && !LexLe(rank(x), rank(rows[0])) {
      var tail := rows[1..];
      assert rows == [rows[0]] + tail;
      InsertSorted(x, tail, rank);
      InsertPerm(x, tail, rank);
      var t := Insert(x, tail, rank);
      forall j | 0 <= j < |t| ensures LexLe(rank(rows[0]), rank(t[j])) {
        assert t[j] in multiset(t);
        if t[j] != x {
          assert t[j] in multiset(tail);
          var m :| 0 <= m < |tail| && tail[m] == t[j];
          assert rows[m + 1] == t[j];
        }
      }
    }
  }

  lemma {:induction false} InsertKeys<K>(x: (K, nat), rows: seq<(K, nat)>, rank: ((K, nat)) -> (int, int))
    ensures KeySet(Insert(x, rows, rank)) == KeySet(rows) + {x.0}
    ensures Distinct(rows) && x.0 !in KeySet(rows) ==> Distinct(Insert(x, rows, rank))
  {
    if rows == [] {
      assert [x][0] == x;
      assert KeySet([x]) == {x.0};
    } else if LexLe(rank(x), rank(rows[0])) {
      KeySetCons(x, rows);
      if Distinct(rows) && x.0 !in KeySet(rows) {
        forall j | 0 <= j < |rows| ensures rows[j].0 != x.0 {
          assert rows[j].0 in KeySet(rows);
        }
      }
    } else {
      var tail := rows[1..];
      assert rows == [rows[0]] + tail;
      KeySetCons(rows[0], tail);
      InsertKeys(x, tail, rank);
      var t := Insert(x, tail, rank);
      KeySetCons(rows[0], t);
      if Distinct(rows) && x.0 !in KeySet(rows) {
        assert Distinct(tail);
        forall j | 0 <= j < |t| ensures t[j].0 != rows[0].0 {
          assert t[j].0 in KeySet(t);
        }
      }
    }
  }

  lemma SortStep<K>(rows: seq<(K, nat)>, s: seq<(K, nat)>, rank: ((K, nat)) -> (int, int))
    requires rows != []
    requires |s| == |rows| - 1 && multiset(s) == multiset(rows[1..])
    requires SortedBy(s, rank)
    requires Total(s) == Total(rows[1..]) && KeySet(s) == KeySet(rows[1..])
    requires Distinct(rows[1..]) ==> Distinct(s)
    ensures var r := Insert(rows[0], s, rank);
      && |r| == |rows| && multiset(r) == multiset(rows)
      && SortedBy(r, rank)
      && Total(r) == Total(rows) && KeySet(r) == KeySet(rows)
      && (Distinct(rows) ==> Distinct(s) && Distinct(r))
  {
    assert rows == [rows[0]] + rows[1..];
    KeySetCons(rows[0], rows[1..]);
    InsertPerm(rows[0], s, rank);
    InsertSorted(rows[0], s, rank);
    InsertKeys(rows[0], s, rank);
    if Distinct(rows) {
      DistinctHead(rows);
    }
  }

  /** In a table with no key twice, the first key does not occur in the rest. */
  lemma DistinctHead<K>(rows: seq<(K, nat)>)
    requires rows != [] && Distinct(rows)
    ensures Distinct(rows[1..]) && rows[0].0 !in KeySet(rows[1..])
  {
    forall j | 0 <= j < |rows| - 1 ensures rows[1..][j].0 != rows[0].0 {
      assert rows[1..][j] == rows[j + 1];
    }
  }

  /** A stable insertion sort: the same rows, ordered by rank. */
  function SortBy<K>(rows: seq<(K, nat)>, rank: ((K, nat)) -> (int, int)): (r: seq<(K, nat)>)
    ensures |r| == |rows| && multiset(r) == multiset(rows)
    ensures SortedBy(r, rank)
    ensures Total(r) == Total(rows) && KeySet(r) == KeySet(rows)
    ensures Distinct(rows) ==> Distinct(r)
  {
    if rows == [] then []
    else
      var s := SortBy(rows[1..], rank);
      SortStep(rows, s, rank);
      Insert(rows[0], s, rank)
  }

  lemma {:induction false} TotalWhereInsert<K>(x: (K, nat), rows: seq<(K, nat)>, rank: ((K, nat)) -> (int, int), p: K -> bool)
    ensures TotalWhere(Insert(x, rows, rank), p) == TotalWhere(rows, p) + (if p(x.0) then x.1 else 0)
  {
    if rows == [] {
      assert [x][1..] == [];
    } else if LexLe(rank(x), rank(rows[0])) {
      assert ([x] + rows)[1..] == rows;
    } else {
      TotalWhereInsert(x, rows[1..], rank, p);
      assert ([rows[0]] + Insert(x, rows[1..], rank))[1..] == Insert(x, rows[1..], rank);
    }
  }

  /** Sorting keeps the sum of the counts of the rows whose key satisfies p. */
  lemma {:induction false} TotalWhereSortBy<K>(rows: seq<(K, nat)>, rank: ((K, nat)) -> (int, int), p: K -> bool)
    ensures TotalWhere(SortBy(rows, rank), p) == TotalWhere(rows, p)
  {
    if rows != [] {
      TotalWhereSortBy(rows[1..], rank, p);
      TotalWhereInsert(rows[0], SortBy(rows[1..], rank), rank, p);
    }
  }

  /** `DataFrame.head(n)`: the first n rows; a negative n drops the last -n rows instead. */
  function Head<T>(s: seq<T>, n: int): (r: seq<T>)
    ensures |r| <= |s| && r == s[..|r|]
    ensures 0 <= n ==> |r| == (if n < |s| then n else |s|)
    ensures n < 0 ==> |r| == (if -n < |s| then |s| + n else 0)
  {
    if n >= 0 then (if n < |s| then s[..n] else s)
    else if -n < |s| then s[..|s| + n] else []
  }

  /** `sort_values(...).head(n)`. */
  function TopN<K>(rows: seq<(K, nat)>, rank: ((K, nat)) -> (int, int), n: int): seq<(K, nat)> {
    Head(SortBy(rows, rank), n)
  }

  /** The first rows of a sorted table are still sorted, and none of the other rows ranks before them. */
  lemma PrefixOfSorted<K>(s: seq<(K, nat)>, m: nat, rank: ((K, nat)) -> (int, int))
    requires m <= |s| && SortedBy(s, rank)
    ensures SortedBy(s[..m], rank)
    ensures Distinct(s) ==> Distinct(s[..m])
    ensures multiset(s[..m]) <= multiset(s)
    ensures multiset(s) - multiset(s[..m]) == multiset(s[m..])
    ensures forall x, y :: x in s[..m] && y in s[m..] ==> LexLe(rank(x), rank(y))
  {
    assert s == s[..m] + s[m..];
    assert multiset(s) == multiset(s[..m]) + multiset(s[m..]);
  }

  /**
   * The first n rows after sorting are rows of the input, in rank order, with no key
   * twice, and none of the rows left out ranks before any row kept.
   */
  lemma TopNSpec<K>(rows: seq<(K, nat)>, rank: ((K, nat)) -> (int, int), n: int)
    ensures var r := TopN(rows, rank, n);
      && multiset(r) <= multiset(rows)
      && SortedBy(r, rank)
      && (0 <= n ==> |r| == (if n < |rows| then n else |rows|))
      && (Distinct(rows) ==> Distinct(r))
      && (forall x, y :: x in r && y in multiset(rows) - multiset(r) ==> LexLe(rank(x), rank(y)))
  {
    var s := SortBy(rows, rank);
    var r := TopN(rows, rank, n);
    PrefixOfSorted(s, |r|, rank);
    assert r == s[..|r|];
    forall x, y | x in r && y in multiset(rows) - multiset(r) ensures LexLe(rank(x), rank(y)) {
      assert y in s[|r|..];
    }
  }

  /** A row of the ranked causes table: the grouped row and its 1-based position. */
  function WithRank<K>(rows: seq<(K, nat)>): (r: seq<(K, nat, nat)>)
    ensures |r| == |rows|
    ensures forall i :: 0 <= i < |r| ==> r[i] == (rows[i].0, rows[i].1, i + 1)
  {
    seq(|rows|, i requires 0 <= i < |rows| => (rows[i].0, rows[i].1, i + 1))
  }
}
