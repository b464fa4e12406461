/**
 * `left.merge(right, on=key, how='left')`: every left row is kept; it is
 * repeated once per matching right row, or kept once with a missing
 * right-hand value when nothing matches.
 */
module Joins {
  import opened Options

  /**
   * The right-hand values whose key equals k, in table order. The right-hand key column
   * never holds NaN in this model (its type `K` is not optional), so a NaN left key
   * matches nothing; pandas would match it to NaN right keys.
   */
  function Matches<K(==), B>(k: Option<K>, right: seq<(K, B)>): (m: seq<B>)
    ensures |m| <= |right|
    ensures k.None? ==> m == []
  {
    if right == [] then []
    else (if k == Some(right[0].0) then [right[0].1] else []) + Matches(k, right[1..])
  }

  function JoinRow<K(==), A, B>(l: (Option<K>, A), right: seq<(K, B)>): (r: seq<(Option<K>, A, Option<B>)>)
    ensures |r| >= 1
    ensures forall i :: 0 <= i < |r| ==> r[i].0 == l.0 && r[i].1 == l.1
  {
    var m := Matches(l.0, right);
    if m == [] then [(l.0, l.1, None)]
    else seq(|m|, i requires 0 <= i < |m| => (l.0, l.1, Some(m[i])))
  }

  function LeftJoin<K(==), A, B>(left: seq<(Option<K>, A)>, right: seq<(K, B)>): (r: seq<(Option<K>, A, Option<B>)>)
  {
    if left == [] then [] else JoinRow(left[0], right) + LeftJoin(left[1..], right)
  }

  /** A table of (key, value) rows keyed by its key column, each row kept whole as the payload. */
  function Keyed<K, V>(rows: seq<(K, V)>): (k: seq<(Option<K>, (K, V))>)
    ensures |k| == |rows| && forall i :: 0 <= i < |rows| ==> k[i] == (Some(rows[i].0), rows[i])
  {
    seq(|rows|, i requires 0 <= i < |rows| => (Some(rows[i].0), rows[i]))
  }

  /** No key occurs twice on the right-hand side. */
  predicate UniqueKeys<K(==), B>(right: seq<(K, B)>) {
    forall i, j :: 0 <= i < j < |right| ==> right[i].0 != right[j].0
  }

  /** The first right-hand value for key k, if any. */
  function Lookup<K(==), B>(k: Option<K>, right: seq<(K, B)>): (r: Option<B>)
    ensures r.None? <==> forall j :: 0 <= j < |right| ==> k != Some(right[j].0)
    ensures r.Some? ==> exists j :: 0 <= j < |right| && k == Some(right[j].0) && r.value == right[j].1
  {
    if right == [] then None
    else if k == Some(right[0].0) then Some(right[0].1)
    else
      var r := Lookup(k, right[1..]);
      assert forall j :: 1 <= j < |right| ==> right[j] == right[1..][j - 1];
      r
  }

  lemma {:induction false} MatchesUnique<K, B>(k: Option<K>, right: seq<(K, B)>)
    requires UniqueKeys(right)
    ensures var m := Matches(k, right);
      m == (match Lookup(k, right) case None => [] case Some(b) => [b])
  {
    if right != [] {
      MatchesUnique(k, right[1..]);
      if k == Some(right[0].0) {
        assert forall j :: 0 <= j < |right| - 1 ==> right[1..][j].0 != right[0].0 by {
          forall j | 0 <= j < |right| - 1 ensures right[1..][j].0 != right[0].0 {
            assert right[1..][j] == right[j + 1];
          }
        }
        assert Lookup(k, right[1..]) == None;
      }
    }
  }

  /** Every left row survives the join, possibly repeated. */
  lemma {:induction false} LeftJoinKeepsRows<K, A, B>(left: seq<(Option<K>, A)>, right: seq<(K, B)>)
    ensures |LeftJoin(left, right)| >= |left|
    ensures forall i :: 0 <= i < |left| ==>
      exists j :: 0 <= j < |LeftJoin(left, right)| &&
        LeftJoin(left, right)[j].0 == left[i].0 && LeftJoin(left, right)[j].1 == left[i].1
  {
    if left != [] {
      LeftJoinKeepsRows(left[1..], right);
      var r := LeftJoin(left, right);
      forall i | 0 <= i < |left|
        ensures exists j :: 0 <= j < |r| && r[j].0 == left[i].0 && r[j].1 == left[i].1
      {
        KeptRow(left, right, i);
      }
    }
  }

  /** One step of the induction above: row i of a non-empty left table survives. */
  lemma KeptRow<K, A, B>(left: seq<(Option<K>, A)>, right: seq<(K, B)>, i: nat)
    requires i < |left|
    requires forall i :: 0 <= i < |left| - 1 ==>
      exists j :: 0 <= j < |LeftJoin(left[1..], right)| &&
        LeftJoin(left[1..], right)[j].0 == left[1..][i].0 && LeftJoin(left[1..], right)[j].1 == left[1..][i].1
    ensures exists j :: 0 <= j < |LeftJoin(left, right)| &&
                        LeftJoin(left, right)[j].0 == left[i].0 && LeftJoin(left, right)[j].1 == left[i].1
  {
    var head := JoinRow(left[0], right);
    var rest := LeftJoin(left[1..], right);
    var r := LeftJoin(left, right);
    assert r == head + rest;
    if i == 0 {
      assert r[0] == head[0];
    } else {
      assert left[1..][i - 1] == left[i];
      var j :| 0 <= j < |rest| && rest[j].0 == left[i].0 && rest[j].1 == left[i].1;
      assert r[|head| + j] == rest[j];
    }
  }

  /**
   * Against a lookup table with unique keys the join neither drops nor repeats rows:
   * row i is left row i with its looked-up value, missing when the key has no match.
   */
  lemma {:induction false} LeftJoinUnique<K, A, B>(left: seq<(Option<K>, A)>, right: seq<(K, B)>)
    requires UniqueKeys(right)
    ensures |LeftJoin(left, right)| == |left|
    ensures forall i :: 0 <= i < |left| ==>
      LeftJoin(left, right)[i] == (left[i].0, left[i].1, Lookup(left[i].0, right))
  {
    if left != [] {
      LeftJoinUnique(left[1..], right);
      MatchesUnique(left[0].0, right);
      var r := LeftJoin(left, right);
      assert JoinRow(left[0], right) == [(left[0].0, left[0].1, Lookup(left[0].0, right))];
      forall i | 1 <= i < |left| ensures r[i] == (left[i].0, left[i].1, Lookup(left[i].0, right)) {
        assert left[1..][i - 1] == left[i];
      }
    }
  }

  /**
   * The value `v` a merged row got for key `k`: missing exactly when no right-hand row has
   * the key, and otherwise the value of a right-hand row with that key.
   */
  ghost predicate Matched<K, B>(k: Option<K>, v: Option<B>, right: seq<(K, B)>) {
    && (v.None? <==> forall j :: 0 <= j < |right| ==> k != Some(right[j].0))
    && (v.Some? ==> exists j :: 0 <= j < |right| && k == Some(right[j].0) && v.value == right[j].1)
  }

  /** The matches of k are empty exactly when no key is k, and each is the value of a row keyed k. */
  lemma {:induction false} MatchesSpec<K, B>(k: Option<K>, right: seq<(K, B)>)
    ensures var m := Matches(k, right);
      && (m == [] <==> forall j :: 0 <= j < |right| ==> k != Some(right[j].0))
      && (forall i :: 0 <= i < |m| ==> exists j :: 0 <= j < |right| && k == Some(right[j].0) && m[i] == right[j].1)
  {
    if right != [] {
      MatchesSpec(k, right[1..]);
      var m := Matches(k, right);
      var here: seq<B> := if k == Some(right[0].0) then [right[0].1] else [];
      var rest := Matches(k, right[1..]);
      assert m == here + rest;
      assert forall j :: 1 <= j < |right| ==> right[j] == right[1..][j - 1];
      forall i | 0 <= i < |m|
        ensures exists j :: 0 <= j < |right| && k == Some(right[j].0) && m[i] == right[j].1
      {
        if i >= |here| {
          var j :| 0 <= j < |right[1..]| && k == Some(right[1..][j].0) && rest[i - |here|] == right[1..][j].1;
          assert right[j + 1] == right[1..][j];
        }
      }
      if m == [] {
        forall j | 0 <= j < |right| ensures k != Some(right[j].0) {
          if j > 0 { assert right[j] == right[1..][j - 1]; }
        }
      }
    }
  }

  /** Every row one left row expands to carries a value matched for its key. */
  lemma JoinRowMatched<K, A, B>(l: (Option<K>, A), right: seq<(K, B)>)
    ensures forall i :: 0 <= i < |JoinRow(l, right)| ==> Matched(l.0, JoinRow(l, right)[i].2, right)
  {
    MatchesSpec(l.0, right);
  }

  /** Every merged row's right-hand value is the one matched for its key: a left merge never invents a value. */
  lemma {:induction false} LeftJoinMatched<K, A, B>(left: seq<(Option<K>, A)>, right: seq<(K, B)>)
    ensures forall j :: 0 <= j < |LeftJoin(left, right)| ==>
      Matched(LeftJoin(left, right)[j].0, LeftJoin(left, right)[j].2, right)
  {
    if left != [] {
      LeftJoinMatched(left[1..], right);
      JoinRowMatched(left[0], right);
      var head := JoinRow(left[0], right);
      var rest := LeftJoin(left[1..], right);
      var r := LeftJoin(left, right);
      assert r == head + rest;
      forall j | 0 <= j < |r| ensures Matched(r[j].0, r[j].2, right) {
        if j < |head| {
          assert r[j] == head[j];
        } else {
          assert r[j] == rest[j - |head|];
        }
      }
    }
  }

  /** The row carries the key and payload of some left row. */
  ghost predicate FromLeft<K, A, B>(row: (Option<K>, A, Option<B>), left: seq<(Option<K>, A)>) {
    exists i :: 0 <= i < |left| && row.0 == left[i].0 && row.1 == left[i].1
  }

  /** Every joined row comes from a left row. */
  lemma {:induction false} LeftJoinRowsFromLeft<K, A, B>(left: seq<(Option<K>, A)>, right: seq<(K, B)>)
    ensures forall j :: 0 <= j < |LeftJoin(left, right)| ==> FromLeft(LeftJoin(left, right)[j], left)
  {
    if left != [] {
      LeftJoinRowsFromLeft(left[1..], right);
      var head := JoinRow(left[0], right);
      var rest := LeftJoin(left[1..], right);
      var r := LeftJoin(left, right);
      assert r == head + rest;
      forall j | 0 <= j < |r| ensures FromLeft(r[j], left) {
        if j < |head| {
          assert r[j] == head[j];
          assert r[j].0 == left[0].0 && r[j].1 == left[0].1;
        } else {
          assert r[j] == rest[j - |head|];
          assert FromLeft(rest[j - |head|], left[1..]);
          var i :| 0 <= i < |left| - 1 && rest[j - |head|].0 == left[1..][i].0 && rest[j - |head|].1 == left[1..][i].1;
          assert left[1..][i] == left[i + 1];
        }
      }
    }
  }
}
