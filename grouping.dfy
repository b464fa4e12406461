/**
 * `groupby(key).size()`: count the rows per key. Rows whose key is NaN
 * (`None`) fall out of every group, as pandas drops NaN keys.
 * A result row is a pair (key, number of rows with that key).
 */
module Grouping {
  import opened Options

  /** Number of rows whose key is `Some(k)`. */
  function Occ<K(==)>(keys: seq<Option<K>>, k: K): nat {
    if keys == [] then 0
    else Occ(keys[..|keys| - 1], k) + (if keys[|keys| - 1] == Some(k) then 1 else 0)
  }

  /** Number of rows whose key is not NaN. */
  function NonNull<K>(keys: seq<Option<K>>): nat {
    if keys == [] then 0
    else NonNull(keys[..|keys| - 1]) + (if keys[|keys| - 1].Some? then 1 else 0)
  }

  /** The keys that occur in at least one row. */
  function Present<K>(keys: seq<Option<K>>): set<K> {
    if keys == [] then {}
    else Present(keys[..|keys| - 1]) + (if keys[|keys| - 1].Some? then {keys[|keys| - 1].value} else {})
  }

  /** Sum of the counts of a grouped table. */
  function Total<K>(rows: seq<(K, nat)>): nat {
    if rows == [] then 0 else rows[0].1 + Total(rows[1..])
  }

  function KeySet<K>(rows: seq<(K, nat)>): set<K> {
    set i | 0 <= i < |rows| :: rows[i].0
  }

  /** No key occurs in two rows. */
  predicate Distinct<K(==)>(rows: seq<(K, nat)>) {
    forall i, j :: 0 <= i < j < |rows| ==> rows[i].0 != rows[j].0
  }

  /** Every row carries the number of input rows with its key, and that number is positive. */
  predicate Tallies<K(==)>(rows: seq<(K, nat)>, keys: seq<Option<K>>) {
    forall i :: 0 <= i < |rows| ==> rows[i].1 == Occ(keys, rows[i].0) && rows[i].1 >= 1
  }

  /** What `groupby(...).size()` promises of its result. */
  predicate IsGrouping<K(==)>(rows: seq<(K, nat)>, keys: seq<Option<K>>) {
    && Distinct(rows)
    && Tallies(rows, keys)
    && KeySet(rows) == Present(keys)
    && Total(rows) == NonNull(keys)
  }

  lemma {:induction false} OccPresent<K>(keys: seq<Option<K>>, k: K)
    ensures Occ(keys, k) > 0 <==> k in Present(keys)
  {
    if keys != [] {
      OccPresent(keys[..|keys| - 1], k);
    }
  }

  /** Position of the row with key k, or -1. */
  function Find<K(==)>(rows: seq<(K, nat)>, k: K): (i: int)
    ensures -1 <= i < |rows|
    ensures i >= 0 ==> rows[i].0 == k
    ensures i < 0 ==> forall j :: 0 <= j < |rows| ==> rows[j].0 != k
  {
    if rows == [] then -1
    else if rows[0].0 == k then 0
    else var j := Find(rows[1..], k); if j < 0 then -1 else j + 1
  }

  lemma {:induction false} TotalUpdate<K>(rows: seq<(K, nat)>, i: nat, x: (K, nat))
    requires i < |rows|
    ensures Total(rows[i := x]) == Total(rows) - rows[i].1 + x.1
  {
    if i > 0 {
      assert rows[i := x][1..] == rows[1..][i - 1 := x];
      TotalUpdate(rows[1..], i - 1, x);
    }
  }

  lemma {:induction false} TotalAppend<K>(rows: seq<(K, nat)>, x: (K, nat))
    ensures Total(rows + [x]) == Total(rows) + x.1
  {
    if rows != [] {
      assert (rows + [x])[1..] == rows[1..] + [x];
      TotalAppend(rows[1..], x);
    }
  }

  /** Tables whose rows carry the same counts, row by row, have the same total. */
  lemma {:induction false} TotalSameCounts<K, L>(a: seq<(K, nat)>, b: seq<(L, nat)>)
    requires |a| == |b| && forall i :: 0 <= i < |a| ==> a[i].1 == b[i].1
    ensures Total(a) == Total(b)
  {
    if a != [] {
      TotalSameCounts(a[1..], b[1..]);
    }
  }

  /** Count one more row with key k. */
  function Bump<K(==)>(rows: seq<(K, nat)>, k: K): seq<(K, nat)> {
    var i := Find(rows, k);
    if i >= 0 then rows[i := (k, rows[i].1 + 1)] else rows + [(k, 1)]
  }

  /** Appending a row with key k adds one to k's count, puts k among the keys present and adds one non-NaN row. */
  lemma LastKey<K>(keys: seq<Option<K>>, k: K)
    requires keys != [] && keys[|keys| - 1] == Some(k)
    ensures var init := keys[..|keys| - 1];
      && (forall x :: Occ(keys, x) == Occ(init, x) + (if x == k then 1 else 0))
      && Present(keys) == Present(init) + {k}
      && NonNull(keys) == NonNull(init) + 1
  {
  }

  lemma BumpStep<K>(rows: seq<(K, nat)>, keys: seq<Option<K>>, k: K)
    requires keys != [] && keys[|keys| - 1] == Some(k)
    requires IsGrouping(rows, keys[..|keys| - 1])
    ensures IsGrouping(Bump(rows, k), keys)
  {
    LastKey(keys, k);
    if Find(rows, k) >= 0 {
      BumpFound(rows, keys, k);
    } else {
      BumpNew(rows, keys, k);
    }
  }

  lemma BumpFound<K>(rows: seq<(K, nat)>, keys: seq<Option<K>>, k: K)
    requires keys != [] && keys[|keys| - 1] == Some(k)
    requires IsGrouping(rows, keys[..|keys| - 1])
    requires Find(rows, k) >= 0
    ensures IsGrouping(Bump(rows, k), keys)
  {
    var i := Find(rows, k);
    var r := Bump(rows, k);
    LastKey(keys, k);
    TotalUpdate(rows, i, (k, rows[i].1 + 1));
    assert KeySet(r) == KeySet(rows) by {
      assert forall j :: 0 <= j < |r| ==> r[j].0 == rows[j].0;
    }
    assert k in KeySet(rows);
  }

  lemma BumpNew<K>(rows: seq<(K, nat)>, keys: seq<Option<K>>, k: K)
    requires keys != [] && keys[|keys| - 1] == Some(k)
    requires IsGrouping(rows, keys[..|keys| - 1])
    requires Find(rows, k) < 0
    ensures IsGrouping(Bump(rows, k), keys)
  {
    var init := keys[..|keys| - 1];
    var r := rows + [(k, 1)];
    assert r == Bump(rows, k);
    LastKey(keys, k);
    OccPresent(init, k);
    assert Occ(init, k) == 0 by {
      assert k !in KeySet(rows);
    }
    assert Distinct(r) by {
      forall i, j | 0 <= i < j < |r| ensures r[i].0 != r[j].0 {
        if j < |rows| { assert r[i] == rows[i] && r[j] == rows[j]; }
      }
    }
    assert Tallies(r, keys) by {
      forall j | 0 <= j < |r| ensures r[j].1 == Occ(keys, r[j].0) && r[j].1 >= 1 {
        if j < |rows| { assert r[j] == rows[j]; }
      }
    }
    assert KeySet(r) == KeySet(rows) + {k} by {
      assert forall j :: 0 <= j < |rows| ==> r[j] == rows[j];
      assert r[|rows|].0 == k;
    }
    TotalAppend(rows, (k, 1));
  }

  /** `groupby(key).size()` over the key column, groups in order of first appearance. */
  function GroupSize<K(==)>(keys: seq<Option<K>>): (g: seq<(K, nat)>)
    ensures IsGrouping(g, keys)
  {
    if keys == [] then []
    else
      var rest := GroupSize(keys[..|keys| - 1]);
      match keys[|keys| - 1]
      case None => rest
      case Some(k) => BumpStep(rest, keys, k); Bump(rest, k)
  }

  /** A grouped row holds the number of rows with its key: the count of key k is Occ(keys, k). */
  lemma {:induction false} GroupSizeCounts<K>(keys: seq<Option<K>>, k: K)
    ensures k in KeySet(GroupSize(keys)) <==> Occ(keys, k) > 0
    ensures forall i :: 0 <= i < |GroupSize(keys)| && GroupSize(keys)[i].0 == k ==>
      GroupSize(keys)[i].1 == Occ(keys, k)
  {
    OccPresent(keys, k);
  }

  /** Number of rows whose key is present and satisfies p. */
  function CountWhere<K>(keys: seq<Option<K>>, p: K -> bool): nat {
    if keys == [] then 0
    else
      var last := keys[|keys| - 1];
      CountWhere(keys[..|keys| - 1], p) + (if last.Some? && p(last.value) then 1 else 0)
  }

  /** Sum of the counts of the rows whose key satisfies p. */
  function TotalWhere<K>(rows: seq<(K, nat)>, p: K -> bool): nat {
    if rows == [] then 0 else (if p(rows[0].0) then rows[0].1 else 0) + TotalWhere(rows[1..], p)
  }

  lemma {:induction false} TotalWhereUpdate<K>(rows: seq<(K, nat)>, i: nat, x: (K, nat), p: K -> bool)
    requires i < |rows|
    ensures TotalWhere(rows[i := x], p) + (if p(rows[i].0) then rows[i].1 else 0) ==
      TotalWhere(rows, p) + (if p(x.0) then x.1 else 0)
  {
    if i > 0 {
      assert rows[i := x][1..] == rows[1..][i - 1 := x];
      TotalWhereUpdate(rows[1..], i - 1, x, p);
    }
  }

  lemma {:induction false} TotalWhereAppend<K>(rows: seq<(K, nat)>, x: (K, nat), p: K -> bool)
    ensures TotalWhere(rows + [x], p) == TotalWhere(rows, p) + (if p(x.0) then x.1 else 0)
  {
    if rows != [] {
      assert (rows + [x])[1..] == rows[1..] + [x];
      TotalWhereAppend(rows[1..], x, p);
    }
  }

  /** The groups whose key satisfies p hold, together, exactly the rows whose key satisfies p. */
  lemma {:induction false} TotalWhereGroupSize<K>(keys: seq<Option<K>>, p: K -> bool)
    ensures TotalWhere(GroupSize(keys), p) == CountWhere(keys, p)
  {
    if keys != [] {
      var rest := GroupSize(keys[..|keys| - 1]);
      TotalWhereGroupSize(keys[..|keys| - 1], p);
      match keys[|keys| - 1]
      case None =>
      case Some(k) =>
        var i := Find(rest, k);
        if i >= 0 {
          TotalWhereUpdate(rest, i, (k, rest[i].1 + 1), p);
        } else {
          TotalWhereAppend(rest, (k, 1), p);
        }
    }
  }

  /** Replace each row's key by f(key), keeping the counts: the `astype(...)` applied to a key column after grouping. */
  function Relabel<K, L>(rows: seq<(K, nat)>, f: K -> L): (r: seq<(L, nat)>)
    ensures |r| == |rows|
    ensures forall i :: 0 <= i < |rows| ==> r[i] == (f(rows[i].0), rows[i].1)
    ensures Total(r) == Total(rows)
  {
    if rows == [] then [] else [(f(rows[0].0), rows[0].1)] + Relabel(rows[1..], f)
  }

  /** Rows drawn from a grouping carry the grouping's counts. */
  lemma TalliesSub<K>(big: seq<(K, nat)>, small: seq<(K, nat)>, keys: seq<Option<K>>)
    requires Tallies(big, keys) && multiset(small) <= multiset(big)
    ensures Tallies(small, keys)
  {
    forall i | 0 <= i < |small| ensures small[i].1 == Occ(keys, small[i].0) && small[i].1 >= 1 {
      assert small[i] in multiset(big);
      var j :| 0 <= j < |big| && big[j] == small[i];
    }
  }

  /** A key that is counted occurs at some row. */
  lemma {:induction false} OccWitness<K>(keys: seq<Option<K>>, k: K)
    requires Occ(keys, k) > 0
    ensures exists i :: 0 <= i < |keys| && keys[i] == Some(k)
  {
    var init := keys[..|keys| - 1];
    if keys[|keys| - 1] != Some(k) {
      OccWitness(init, k);
      var i :| 0 <= i < |init| && init[i] == Some(k);
      assert keys[i] == Some(k);
    }
  }

  /** The key of any row is counted. */
  lemma {:induction false} OccAt<K>(keys: seq<Option<K>>, i: nat)
    requires i < |keys| && keys[i].Some?
    ensures Occ(keys, keys[i].value) > 0
  {
    if i < |keys| - 1 {
      var init := keys[..|keys| - 1];
      assert init[i] == keys[i];
      OccAt(init, i);
    }
  }
}
