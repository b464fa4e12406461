/**
 * Row filters and the in-place normalisation of the cause-code column:
 * `filtrar_año`, `filtrar_codigos_min_length`, the X95 homicide predicate
 * and `normalizar_codigo_columna`.
 */
module Filters {
  import opened Options
  import opened Text
  import opened Tables

  /** `df[mask]`: the rows that satisfy p, in their original order. */
  function Filter<T>(s: seq<T>, p: T -> bool): (r: seq<T>)
    ensures |r| <= |s|
    ensures multiset(r) <= multiset(s)
    ensures forall i :: 0 <= i < |r| ==> p(r[i])
    ensures forall i :: 0 <= i < |s| && p(s[i]) ==> multiset(r)[s[i]] == multiset(s)[s[i]]
  {
    if s == [] then []
    else
      var rest := Filter(s[..|s| - 1], p);
      assert s == s[..|s| - 1] + [s[|s| - 1]];
      if p(s[|s| - 1]) then rest + [s[|s| - 1]]
      else
        assert forall i :: 0 <= i < |s| && p(s[i]) ==> s[i] != s[|s| - 1];
        rest
  }

  /**
   * The mask keeps the original order: filtering a table split in two is filtering
   * each part and putting the kept rows back in the same order.
   */
  lemma {:induction false} FilterInOrder<T>(a: seq<T>, b: seq<T>, p: T -> bool)
    ensures Filter(a + b, p) == Filter(a, p) + Filter(b, p)
    decreases |b|
  {
    if b == [] {
      assert a + b == a;
    } else {
      var front, last := b[..|b| - 1], b[|b| - 1];
      assert b == front + [last];
      assert a + b == (a + front) + [last];
      FilterInOrder(a, front, p);
      FilterSnoc(a + front, last, p);
      FilterSnoc(front, last, p);
    }
  }

  /** Appending a row appends it to the result exactly when it satisfies the mask. */
  lemma FilterSnoc<T>(s: seq<T>, x: T, p: T -> bool)
    ensures Filter(s + [x], p) == Filter(s, p) + (if p(x) then [x] else [])
  {
    var t := s + [x];
    assert t[..|t| - 1] == s;
  }

  /** A single row is kept exactly when it satisfies the mask. */
  lemma FilterSingle<T>(x: T, p: T -> bool)
    ensures Filter([x], p) == (if p(x) then [x] else [])
  {
    assert [x][..0] == [];
  }

  /** `df[df['AÑO'] == año]`. */
  function FilterYear(rows: seq<Death>, year: int): seq<Death> {
    Filter(rows, (d: Death) => d.year == year)
  }

  /** The year filter keeps every record of that year, as often as it occurs, and nothing else. */
  lemma FilterYearSpec(rows: seq<Death>, year: int)
    ensures forall d :: d in FilterYear(rows, year) <==> d in rows && d.year == year
    ensures forall d :: d in rows && d.year == year ==> multiset(FilterYear(rows, year))[d] == multiset(rows)[d]
  {
    var r := FilterYear(rows, year);
    forall d ensures d in r <==> d in rows && d.year == year {
      assert d in r ==> d in multiset(rows);
    }
  }

  /** `df[df[col].str.len() >= min_len]` on the cause-code column: a NaN code has no length and is dropped. */
  function FilterMinLength(rows: seq<Death>, minLen: int): seq<Death> {
    Filter(rows, (d: Death) => d.cause.Some? && |d.cause.value| >= minLen)
  }

  lemma FilterMinLengthSpec(rows: seq<Death>, minLen: int)
    ensures forall d :: d in FilterMinLength(rows, minLen) <==>
      d in rows && d.cause.Some? && |d.cause.value| >= minLen
  {
    var r := FilterMinLength(rows, minLen);
    forall d ensures d in r <==> d in rows && d.cause.Some? && |d.cause.value| >= minLen {
      assert d in r ==> d in multiset(rows);
    }
  }

  /** `df['COD_MUERTE'].astype(str).str.lower().str.startswith('x95')`. */
  predicate IsHomicide(d: Death) {
    StartsWith(Lower(AsText(d.cause)), "x95")
  }

  /** A code is a homicide code exactly when it starts with X95 in either case. */
  lemma IsHomicideSpec(d: Death)
    ensures IsHomicide(d) <==>
      d.cause.Some? && |d.cause.value| >= 3 &&
      (d.cause.value[0] == 'x' || d.cause.value[0] == 'X') &&
      d.cause.value[1] == '9' && d.cause.value[2] == '5'
  {
    var t := AsText(d.cause);
    if d.cause.None? {
      assert t[0] == 'n';
    } else if |t| >= 3 {
      assert Lower(t)[..3] == [LowerChar(t[0]), LowerChar(t[1]), LowerChar(t[2])];
    }
  }

  /** `x950` and `X950` count as homicides, `Y95` and a missing code do not. */
  lemma HomicideExamples(d: Death)
    ensures d.cause == Some("X950") ==> IsHomicide(d)
    ensures d.cause == Some("x950") ==> IsHomicide(d)
    ensures d.cause == Some("Y95") ==> !IsHomicide(d)
    ensures d.cause.None? ==> !IsHomicide(d)
  {
    IsHomicideSpec(d);
  }

  /** `astype(str).str.strip().str.upper()` on one cause-code cell. */
  function NormalizeCode(c: Option<string>): string {
    Normalize(AsText(c))
  }

  /** Normalising a normalised code changes nothing. */
  lemma NormalizeCodeIdempotent(c: Option<string>)
    ensures NormalizeCode(Some(NormalizeCode(c))) == NormalizeCode(c)
  {
    NormalizeIdempotent(AsText(c));
  }

  function NormalizeCause(d: Death): Death {
    d.(cause := Some(NormalizeCode(d.cause)))
  }

  /** The records after the cause-code column is overwritten with its normalised form. */
  function NormalizedCauses(rows: seq<Death>): (r: seq<Death>)
    ensures |r| == |rows|
    ensures forall i :: 0 <= i < |rows| ==> r[i] == NormalizeCause(rows[i])
  {
    seq(|rows|, i requires 0 <= i < |rows| => NormalizeCause(rows[i]))
  }

  /** Normalising the column twice leaves it as normalising it once. */
  lemma NormalizedCausesIdempotent(rows: seq<Death>)
    ensures NormalizedCauses(NormalizedCauses(rows)) == NormalizedCauses(rows)
  {
    forall i | 0 <= i < |rows|
      ensures NormalizeCause(NormalizeCause(rows[i])) == NormalizeCause(rows[i])
    {
      NormalizeCodeIdempotent(rows[i].cause);
    }
  }

  /**
   * `normalizar_codigo_columna(df, 'COD_MUERTE')`: overwrites the caller's
   * cause-code column in place, every other column untouched.
   */
  method NormalizeCauseColumn(a: array<Death>)
    modifies a
    ensures a[..] == NormalizedCauses(old(a[..]))
  {
    ghost var before := a[..];
    var i := 0;
    while i < a.Length
      invariant 0 <= i <= a.Length
      invariant forall k :: 0 <= k < i ==> a[k] == NormalizeCause(before[k])
      invariant forall k :: i <= k < a.Length ==> a[k] == before[k]
    {
      a[i] := NormalizeCause(a[i]);
      i := i + 1;
    }
    assert a[..] == NormalizedCauses(before);
  }
}
