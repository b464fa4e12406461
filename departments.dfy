/**
 * The map view: deaths per department (`agrupar_muertes_por_departamento`),
 * the canonical department name per code (`obtener_departamentos_mas_frecuentes`)
 * and their left merge (`merge_muertes_departamentos`).
 */
module Departments {
  import opened Options
  import opened Text
  import opened Tables
  import opened Grouping
  import opened Ranking
  import opened Joins

  /** The COD_DEPARTAMENTO column of the mortality records. */
  function DeptKeys(deaths: seq<Death>): (k: seq<Option<nat>>)
    ensures |k| == |deaths| && forall i :: 0 <= i < |deaths| ==> k[i] == deaths[i].dept
  {
    seq(|deaths|, i requires 0 <= i < |deaths| => deaths[i].dept)
  }

  function ByCode(row: (nat, nat)): (int, int) { (row.0, 0) }

  /** `groupby('COD_DEPARTAMENTO').size()`: groups ordered by code. */
  function DeptGroups(deaths: seq<Death>): seq<(nat, nat)> {
    SortBy(GroupSize(DeptKeys(deaths)), ByCode)
  }

  /** The grouped counts with the code rewritten as `astype(int).astype(str).str.zfill(2)`. */
  function CountByDepartment(deaths: seq<Death>): seq<(string, nat)> {
    Relabel(DeptGroups(deaths), DeptLabel)
  }

  /**
   * One row per department code that occurs, in ascending code order; each row's key
   * is the code's two-digit text and its count is the number of records with that code;
   * the counts add up to the records whose code is not missing.
   */
  lemma CountByDepartmentSpec(deaths: seq<Death>)
    ensures var g := DeptGroups(deaths);
      && (forall i, j :: 0 <= i < j < |g| ==> g[i].0 < g[j].0)
      && (forall i :: 0 <= i < |g| ==> g[i].1 == Occ(DeptKeys(deaths), g[i].0) >= 1)
      && (forall n :: n in Present(DeptKeys(deaths)) <==> n in KeySet(g))
    ensures var r := CountByDepartment(deaths);
      && |r| == |DeptGroups(deaths)|
      && (forall i :: 0 <= i < |r| ==> ParseNat(r[i].0) == Some(DeptGroups(deaths)[i].0))
      && (forall i :: 0 <= i < |r| && DeptGroups(deaths)[i].0 < 100 ==> |r[i].0| == 2)
      && Total(r) == NonNull(DeptKeys(deaths))
  {
    var keys := DeptKeys(deaths);
    var g := DeptGroups(deaths);
    TalliesSub(GroupSize(keys), g, keys);
    forall i | 0 <= i < |g| ensures ParseNat(DeptLabel(g[i].0)) == Some(g[i].0)
      && (g[i].0 < 100 ==> |DeptLabel(g[i].0)| == 2)
    {
      DeptLabelRoundTrip(g[i].0);
    }
  }

  /** A (code, name) variant of the division table with its frequency. */
  type NameCount = ((nat, string), nat)

  /** `astype(int)` succeeds on every department code of the division table. */
  predicate NumericCodes(div: seq<Division>) {
    forall i :: 0 <= i < |div| ==> DeptNumber(div[i].dept).Some?
  }

  /** The (COD_DEPARTAMENTO, DEPARTAMENTO) pairs of the division table. */
  function NameKeys(div: seq<Division>): (k: seq<Option<(nat, string)>>)
    requires NumericCodes(div)
    ensures |k| == |div|
    ensures forall i :: 0 <= i < |div| ==> k[i] == Some((DeptNumber(div[i].dept).value, div[i].deptName))
  {
    seq(|div|, i requires 0 <= i < |div| && NumericCodes(div) =>
      Some((DeptNumber(div[i].dept).value, div[i].deptName)))
  }

  /** `sort_values(['COD_DEPARTAMENTO', 'Frecuencia'], ascending=[True, False])`. */
  function CodeThenFreq(row: NameCount): (int, int) {
    var down: int := 0 - row.1 as int;
    (row.0.0, down)
  }

  function CodesOf(rows: seq<NameCount>): set<nat> {
    set i | 0 <= i < |rows| :: rows[i].0.0
  }

  /** `drop_duplicates(subset='COD_DEPARTAMENTO', keep='first')`: the first row of every code. */
  function KeepFirst(rows: seq<NameCount>): seq<NameCount> {
    if rows == [] then []
    else
      var init := rows[..|rows| - 1];
      var last := rows[|rows| - 1];
      if last.0.0 in CodesOf(init) then KeepFirst(init) else KeepFirst(init) + [last]
  }

  /** The rows kept are rows of the input, and every code keeps a row. */
  lemma {:induction false} KeepFirstCodes(rows: seq<NameCount>)
    ensures CodesOf(KeepFirst(rows)) == CodesOf(rows)
    ensures forall i :: 0 <= i < |KeepFirst(rows)| ==> KeepFirst(rows)[i] in rows
  {
    if rows != [] {
      var init := rows[..|rows| - 1];
      var last := rows[|rows| - 1];
      KeepFirstCodes(init);
      var p := KeepFirst(init);
      assert CodesOf(rows) == CodesOf(init) + {last.0.0} by {
        assert forall j :: 0 <= j < |init| ==> init[j] == rows[j];
      }
      assert forall x :: x in init ==> x in rows;
      if last.0.0 !in CodesOf(init) {
        var out := p + [last];
        assert CodesOf(out) == CodesOf(p) + {last.0.0} by {
          assert forall j :: 0 <= j < |p| ==> out[j] == p[j];
          assert out[|p|] == last;
        }
      }
    }
  }

  /** No code is kept twice. */
  lemma {:induction false} KeepFirstDistinct(rows: seq<NameCount>)
    ensures var out := KeepFirst(rows);
      forall i, j :: 0 <= i < j < |out| ==> out[i].0.0 != out[j].0.0
  {
    if rows != [] {
      var init := rows[..|rows| - 1];
      var last := rows[|rows| - 1];
      KeepFirstDistinct(init);
      KeepFirstCodes(init);
      var p := KeepFirst(init);
      if last.0.0 !in CodesOf(init) {
        forall i | 0 <= i < |p| ensures p[i].0.0 != last.0.0 {
          assert p[i].0.0 in CodesOf(p);
        }
      }
    }
  }

  /** Row `x` is the first row of `rows` with its code. */
  ghost predicate FirstOfCode(rows: seq<NameCount>, x: NameCount) {
    exists k :: 0 <= k < |rows| && rows[k] == x && forall m :: 0 <= m < k ==> rows[m].0.0 != x.0.0
  }

  /** Each kept row is the first row of the input with its code. */
  lemma {:induction false} KeepFirstIsFirst(rows: seq<NameCount>)
    ensures forall i :: 0 <= i < |KeepFirst(rows)| ==> FirstOfCode(rows, KeepFirst(rows)[i])
  {
    if rows != [] {
      var init := rows[..|rows| - 1];
      var last := rows[|rows| - 1];
      KeepFirstIsFirst(init);
      var p := KeepFirst(init);
      var out := KeepFirst(rows);
      forall i | 0 <= i < |out| ensures FirstOfCode(rows, out[i]) {
        if i < |p| {
          assert out[i] == p[i];
          assert FirstOfCode(init, p[i]);
          var k :| 0 <= k < |init| && init[k] == p[i] && forall m :: 0 <= m < k ==> init[m].0.0 != p[i].0.0;
          assert rows[k] == init[k];
          assert forall m :: 0 <= m < k ==> rows[m] == init[m];
        } else {
          assert out[i] == last;
          forall m | 0 <= m < |rows| - 1 ensures rows[m].0.0 != last.0.0 {
            assert rows[m] == init[m];
            assert init[m].0.0 in CodesOf(init);
          }
        }
      }
    }
  }

  /**
   * `drop_duplicates(subset='COD_DEPARTAMENTO', keep='first')`: every code of the input keeps
   * exactly one row, and that row is the first row of the input with its code.
   */
  lemma KeepFirstSpec(rows: seq<NameCount>)
    ensures var out := KeepFirst(rows);
      && CodesOf(out) == CodesOf(rows)
      && (forall i, j :: 0 <= i < j < |out| ==> out[i].0.0 != out[j].0.0)
      && (forall i :: 0 <= i < |out| ==>
            exists k :: 0 <= k < |rows| && rows[k] == out[i] && forall m :: 0 <= m < k ==> rows[m].0.0 != out[i].0.0)
  {
    var out := KeepFirst(rows);
    KeepFirstCodes(rows);
    KeepFirstDistinct(rows);
    KeepFirstIsFirst(rows);
    forall i | 0 <= i < |out|
      ensures exists k :: 0 <= k < |rows| && rows[k] == out[i] && forall m :: 0 <= m < k ==> rows[m].0.0 != out[i].0.0
    {
      assert FirstOfCode(rows, out[i]);
    }
  }

  /**
   * On rows sorted by code and descending frequency the rows kept have strictly
   * increasing codes, and the row kept for a code is at least as frequent as every
   * row with that code.
   */
  lemma {:induction false} KeepFirstSorted(rows: seq<NameCount>)
    requires SortedBy(rows, CodeThenFreq)
    ensures var out := KeepFirst(rows);
      && (forall i, j :: 0 <= i < j < |out| ==> out[i].0.0 < out[j].0.0)
      && (forall i, j :: 0 <= i < |out| && 0 <= j < |rows| && rows[j].0.0 == out[i].0.0 ==>
            rows[j].1 <= out[i].1)
  {
    if rows != [] {
      var init := rows[..|rows| - 1];
      var last := rows[|rows| - 1];
      assert SortedBy(init, CodeThenFreq);
      KeepFirstSorted(init);
      KeepFirstCodes(init);
      var p := KeepFirst(init);
      KeptBeforeLast(rows);
      if last.0.0 !in CodesOf(init) {
        forall j | 0 <= j < |init| ensures init[j].0.0 != last.0.0 {
          assert init[j].0.0 in CodesOf(init);
        }
        forall i | 0 <= i < |p| ensures p[i].0.0 != last.0.0 {
          assert p[i].0.0 in CodesOf(p);
        }
      }
    }
  }

  /** The rows kept from all but the last row rank no later than the last row. */
  lemma KeptBeforeLast(rows: seq<NameCount>)
    requires rows != [] && SortedBy(rows, CodeThenFreq)
    ensures var p := KeepFirst(rows[..|rows| - 1]);
      var last := rows[|rows| - 1];
      forall i :: 0 <= i < |p| ==> p[i].0.0 <= last.0.0 && (p[i].0.0 == last.0.0 ==> last.1 <= p[i].1)
  {
    var init := rows[..|rows| - 1];
    var p := KeepFirst(init);
    var last := rows[|rows| - 1];
    KeepFirstCodes(init);
    forall i | 0 <= i < |p|
      ensures p[i].0.0 <= last.0.0 && (p[i].0.0 == last.0.0 ==> last.1 <= p[i].1)
    {
      var k :| 0 <= k < |init| && init[k] == p[i];
      assert rows[k] == p[i];
      assert LexLe(CodeThenFreq(rows[k]), CodeThenFreq(last));
    }
  }

  /** The canonical (code, name) variant of every department, with its frequency. */
  function CanonicalNames(div: seq<Division>): seq<NameCount>
    requires NumericCodes(div)
  {
    KeepFirst(SortBy(GroupSize(NameKeys(div)), CodeThenFreq))
  }

  /** The department codes of the division table. */
  function DivisionCodes(div: seq<Division>): set<nat>
    requires NumericCodes(div)
  {
    set i | 0 <= i < |div| :: DeptNumber(div[i].dept).value
  }

  /** Each canonical row carries the frequency of its (code, name) pair in the division table. */
  lemma CanonicalCounts(div: seq<Division>)
    requires NumericCodes(div)
    ensures var c := CanonicalNames(div);
      forall i :: 0 <= i < |c| ==> c[i].1 == Occ(NameKeys(div), c[i].0) >= 1
  {
    var keys := NameKeys(div);
    var s := SortBy(GroupSize(keys), CodeThenFreq);
    TalliesSub(GroupSize(keys), s, keys);
    KeepFirstCodes(s);
  }

  /** The name chosen for a code is a most frequent spelling of that code's name. */
  lemma CanonicalIsMostFrequent(div: seq<Division>)
    requires NumericCodes(div)
    ensures var c := CanonicalNames(div);
      forall i, name :: 0 <= i < |c| ==> Occ(NameKeys(div), (c[i].0.0, name)) <= c[i].1
  {
    var keys := NameKeys(div);
    var s := SortBy(GroupSize(keys), CodeThenFreq);
    var c := CanonicalNames(div);
    TalliesSub(GroupSize(keys), s, keys);
    KeepFirstSorted(s);
    assert c == KeepFirst(s);
    forall i, name | 0 <= i < |c| ensures Occ(keys, (c[i].0.0, name)) <= c[i].1 {
      var key := (c[i].0.0, name);
      OccPresent(keys, key);
      if Occ(keys, key) > 0 {
        assert key in KeySet(s);
        var j :| 0 <= j < |s| && s[j].0 == key;
        assert s[j].1 == Occ(keys, key);
        assert s[j].0.0 == c[i].0.0;
      }
    }
  }

  /** The canonical table has a row for exactly the codes of the division table. */
  lemma CanonicalCodes(div: seq<Division>)
    requires NumericCodes(div)
    ensures CodesOf(CanonicalNames(div)) == DivisionCodes(div)
  {
    var keys := NameKeys(div);
    var s := SortBy(GroupSize(keys), CodeThenFreq);
    KeepFirstCodes(s);
    forall n ensures n in CodesOf(s) <==> n in DivisionCodes(div) {
      if n in CodesOf(s) {
        var j :| 0 <= j < |s| && s[j].0.0 == n;
        assert s[j].0 in KeySet(s);
        OccPresent(keys, s[j].0);
        OccWitness(keys, s[j].0);
      }
      if n in DivisionCodes(div) {
        var i :| 0 <= i < |div| && DeptNumber(div[i].dept).value == n;
        var key := (n, div[i].deptName);
        OccAt(keys, i);
        OccPresent(keys, key);
        var j :| 0 <= j < |s| && s[j].0 == key;
      }
    }
  }

  /**
   * Exactly one row per department code of the division table, in ascending code order,
   * and the name chosen for a code is a most frequent spelling of that code's name.
   */
  lemma CanonicalNamesSpec(div: seq<Division>)
    requires NumericCodes(div)
    ensures var c := CanonicalNames(div);
      && CodesOf(c) == DivisionCodes(div)
      && (forall i, j :: 0 <= i < j < |c| ==> c[i].0.0 < c[j].0.0)
      && (forall i :: 0 <= i < |c| ==> c[i].1 == Occ(NameKeys(div), c[i].0) >= 1)
      && (forall i, name :: 0 <= i < |c| ==> Occ(NameKeys(div), (c[i].0.0, name)) <= c[i].1)
  {
    CanonicalCodes(div);
    CanonicalCounts(div);
    CanonicalIsMostFrequent(div);
    var s := SortBy(GroupSize(NameKeys(div)), CodeThenFreq);
    KeepFirstSorted(s);
    assert CanonicalNames(div) == KeepFirst(s);
  }

  /**
   * `obtener_departamentos_mas_frecuentes`: one (two-digit code, name) row per department;
   * `fold` stands for `unidecode`, applied before upper-casing.
   */
  function DepartmentNames(div: seq<Division>, fold: string -> string): seq<(string, string)>
    requires NumericCodes(div)
  {
    var c := CanonicalNames(div);
    seq(|c|, i requires 0 <= i < |c| => (DeptLabel(c[i].0.0), Upper(fold(c[i].0.1))))
  }

  /** The name table has one row per code key, so merging with it never repeats a row. */
  lemma DepartmentNamesUnique(div: seq<Division>, fold: string -> string)
    requires NumericCodes(div)
    ensures UniqueKeys(DepartmentNames(div, fold))
    ensures |DepartmentNames(div, fold)| == |CanonicalNames(div)|
  {
    CanonicalNamesSpec(div);
    var c := CanonicalNames(div);
    var r := DepartmentNames(div, fold);
    forall i, j | 0 <= i < j < |r| ensures r[i].0 != r[j].0 {
      DeptLabelInjective(c[i].0.0, c[j].0.0);
    }
  }

  /** A row of the map view: two-digit code, department name (missing when unmatched), deaths. */
  datatype MapRow = MapRow(code: string, name: Option<string>, total: nat)

  /** `muertes.merge(departamentos, on='COD_DEPARTAMENTO', how='left')`. */
  function MergeDepartmentNames(counts: seq<(string, nat)>, names: seq<(string, string)>): seq<MapRow> {
    var joined := LeftJoin(Keyed(counts), names);
    seq(|joined|, i requires 0 <= i < |joined| => MapRow(joined[i].1.0, joined[i].2, joined[i].1.1))
  }

  /** The merge keeps every count row, repeated once per name row that matches its code. */
  lemma MergeKeepsRows(counts: seq<(string, nat)>, names: seq<(string, string)>)
    ensures var r := MergeDepartmentNames(counts, names);
      && |r| >= |counts|
      && forall i :: 0 <= i < |counts| ==>
           exists j :: 0 <= j < |r| && r[j].code == counts[i].0 && r[j].total == counts[i].1
  {
    var left := Keyed(counts);
    var joined := LeftJoin(left, names);
    var r := MergeDepartmentNames(counts, names);
    LeftJoinKeepsRows(left, names);
    forall i | 0 <= i < |counts|
      ensures exists j :: 0 <= j < |r| && r[j].code == counts[i].0 && r[j].total == counts[i].1
    {
      var j :| 0 <= j < |joined| && joined[j].0 == left[i].0 && joined[j].1 == left[i].1;
      assert r[j] == MapRow(joined[j].1.0, joined[j].2, joined[j].1.1);
    }
  }

  /**
   * The map view: with the canonical name table the merge keeps exactly one row per
   * department that has deaths, in the same order; a row's name is missing exactly
   * when the division table does not know its code, and otherwise is the upper-cased,
   * folded canonical name of that code.
   */
  lemma MapViewSpec(deaths: seq<Death>, div: seq<Division>, fold: string -> string)
    requires NumericCodes(div)
    ensures var counts := CountByDepartment(deaths);
      var r := MergeDepartmentNames(counts, DepartmentNames(div, fold));
      && |r| == |counts|
      && forall i :: 0 <= i < |r| ==>
           && r[i].code == counts[i].0 && r[i].total == counts[i].1
           && (r[i].name.None? <==> DeptGroups(deaths)[i].0 !in DivisionCodes(div))
           && (r[i].name.Some? ==>
                 exists k :: 0 <= k < |CanonicalNames(div)| && CanonicalNames(div)[k].0.0 == DeptGroups(deaths)[i].0 &&
                   r[i].name.value == Upper(fold(CanonicalNames(div)[k].0.1)))
  {
    var counts := CountByDepartment(deaths);
    var names := DepartmentNames(div, fold);
    var c := CanonicalNames(div);
    var left := Keyed(counts);
    DepartmentNamesUnique(div, fold);
    LeftJoinUnique(left, names);
    CanonicalCodes(div);
    var g := DeptGroups(deaths);
    forall i | 0 <= i < |counts| && Lookup(Some(counts[i].0), names).Some?
      ensures exists k :: 0 <= k < |c| && c[k].0.0 == g[i].0 &&
                          Lookup(Some(counts[i].0), names).value == Upper(fold(c[k].0.1))
    {
      var k :| 0 <= k < |names| && Some(counts[i].0) == Some(names[k].0) &&
        Lookup(Some(counts[i].0), names).value == names[k].1;
      DeptLabelInjective(c[k].0.0, g[i].0);
    }
    forall i | 0 <= i < |counts|
      ensures Lookup(Some(counts[i].0), names).None? <==> g[i].0 !in DivisionCodes(div)
    {
      if g[i].0 in DivisionCodes(div) {
        assert g[i].0 in CodesOf(c);
        var k :| 0 <= k < |c| && c[k].0.0 == g[i].0;
        assert names[k].0 == counts[i].0;
      } else {
        forall j | 0 <= j < |names| ensures Some(counts[i].0) != Some(names[j].0) {
          DeptLabelInjective(c[j].0.0, g[i].0);
          assert c[j].0.0 in CodesOf(c);
        }
      }
    }
  }
}
