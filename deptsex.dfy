/**
 * `conteo_muertes_por_departamento_y_sexo`: deaths per (department, sex),
 * the department code padded to two characters on both sides (the caller's
 * division table is rewritten in place), merged with the department names
 * and the sex codes mapped to readable labels.
 */
module DeptSex {
  import opened Options
  import opened Text
  import opened Tables
  import opened Grouping
  import opened Ranking
  import opened Joins
  import Departments

  /** `{1: 'Masculino', 2: 'Femenino', 3: 'Otro'}` followed by `fillna('Desconocido')`. */
  function SexLabel(sex: int): string {
    if sex == 1 then "Masculino"
    else if sex == 2 then "Femenino"
    else if sex == 3 then "Otro"
    else "Desconocido"
  }

  /** The code a label stands for, when it stands for exactly one. */
  function SexCode(name: string): Option<int> {
    if name == "Masculino" then Some(1)
    else if name == "Femenino" then Some(2)
    else if name == "Otro" then Some(3)
    else None
  }

  /**
   * The mapping is total: every code gets one of the four labels; the three known
   * codes get their own label and read back from it, every other code is "Desconocido".
   */
  lemma SexLabelSpec(sex: int)
    ensures SexLabel(sex) in {"Masculino", "Femenino", "Otro", "Desconocido"}
    ensures 1 <= sex <= 3 ==> SexCode(SexLabel(sex)) == Some(sex)
    ensures !(1 <= sex <= 3) <==> SexLabel(sex) == "Desconocido"
    ensures SexCode(SexLabel(sex)).None? <==> SexLabel(sex) == "Desconocido"
  {
  }

  /** Two codes share a label only when both are unknown or they are equal. */
  lemma SexLabelInjective(a: int, b: int)
    ensures SexLabel(a) == SexLabel(b) <==> a == b || (!(1 <= a <= 3) && !(1 <= b <= 3))
  {
  }

  /** The department code after `astype(str).str.zfill(2)`, as text. */
  function PadCode(c: DeptCell): DeptCell {
    StrCode(ZFill(DeptText(c), 2))
  }

  /** The division table after its department code column is padded in place. */
  function PadCodes(div: seq<Division>): (r: seq<Division>)
    ensures |r| == |div|
    ensures forall i :: 0 <= i < |div| ==> r[i] == div[i].(dept := PadCode(div[i].dept))
  {
    seq(|div|, i requires 0 <= i < |div| => div[i].(dept := PadCode(div[i].dept)))
  }

  /** Padding a padded column changes nothing. */
  lemma PadCodesIdempotent(div: seq<Division>)
    ensures PadCodes(PadCodes(div)) == PadCodes(div)
  {
    forall i | 0 <= i < |div| ensures PadCode(PadCode(div[i].dept)) == PadCode(div[i].dept) {
      assert |ZFill(DeptText(div[i].dept), 2)| >= 2;
    }
  }

  /** Padding keeps the number every readable code stands for, so `astype(int)` still reads it. */
  lemma PadCodeKeepsNumber(c: DeptCell)
    requires DeptNumber(c).Some?
    ensures DeptNumber(PadCode(c)) == DeptNumber(c)
  {
    match c
    case IntCode(n) =>
      DeptLabelRoundTrip(n);
      assert ZFill(NatToString(n), 2) == DeptLabel(n);
    case StrCode(s) =>
      if |s| < 2 {
        assert |s| == 1 && Zeros(1) == "0";
        assert ZFill(s, 2) == "0" + s;
        LeadingZero(s);
      }
  }

  /** The (COD_DEPARTAMENTO, SEXO) key of each record; NaN when either is missing (`dropna`). */
  function DeptSexKeys(deaths: seq<Death>): (k: seq<Option<(nat, int)>>)
    ensures |k| == |deaths|
    ensures forall i :: 0 <= i < |deaths| ==>
      k[i] == if deaths[i].dept.Some? && deaths[i].sex.Some? then Some((deaths[i].dept.value, deaths[i].sex.value)) else None
  {
    seq(|deaths|, i requires 0 <= i < |deaths| =>
      if deaths[i].dept.Some? && deaths[i].sex.Some? then Some((deaths[i].dept.value, deaths[i].sex.value)) else None)
  }

  /** `groupby([COD_DEPARTAMENTO, SEXO])` orders the groups by code, then by sex. */
  function ByDeptSex(row: ((nat, int), nat)): (int, int) {
    (row.0.0, row.0.1)
  }

  /** The grouped counts, keyed by (department code, sex code). */
  function DeptSexGroups(deaths: seq<Death>): seq<((nat, int), nat)> {
    SortBy(GroupSize(DeptSexKeys(deaths)), ByDeptSex)
  }

  /**
   * One row per (department, sex) pair that occurs, ordered by department code and
   * then by sex with no pair twice; each row holds the number of records with that
   * pair; the rows add up to the records where neither is missing.
   */
  lemma DeptSexGroupsSpec(deaths: seq<Death>)
    ensures var keys := DeptSexKeys(deaths);
      var g := DeptSexGroups(deaths);
      && (forall i, j :: 0 <= i < j < |g| ==>
            g[i].0.0 < g[j].0.0 || (g[i].0.0 == g[j].0.0 && g[i].0.1 < g[j].0.1))
      && Tallies(g, keys)
      && KeySet(g) == Present(keys)
      && Total(g) == NonNull(keys)
  {
    var keys := DeptSexKeys(deaths);
    var g := DeptSexGroups(deaths);
    TalliesSub(GroupSize(keys), g, keys);
    StrictlyOrdered(g);
  }

  /** A table sorted by (code, sex) with no key twice is strictly increasing in (code, sex). */
  lemma StrictlyOrdered(g: seq<((nat, int), nat)>)
    requires SortedBy(g, ByDeptSex) && Distinct(g)
    ensures forall i, j :: 0 <= i < j < |g| ==>
      g[i].0.0 < g[j].0.0 || (g[i].0.0 == g[j].0.0 && g[i].0.1 < g[j].0.1)
  {
    forall i, j | 0 <= i < j < |g|
      ensures g[i].0.0 < g[j].0.0 || (g[i].0.0 == g[j].0.0 && g[i].0.1 < g[j].0.1)
    {
      assert LexLe(ByDeptSex(g[i]), ByDeptSex(g[j]));
    }
  }

  /** `drop_duplicates()`: the first occurrence of every row, in table order. */
  function Dedup(s: seq<(string, string)>): (r: seq<(string, string)>)
    ensures forall x :: x in r <==> x in s
    ensures forall i, j :: 0 <= i < j < |r| ==> r[i] != r[j]
    ensures forall i, j, k :: 0 <= i < j < |r| && 0 <= k < |s| && s[k] == r[j] ==> r[i] in s[..k]
  {
    if s == [] then []
    else
      var r := Dedup(s[..|s| - 1]);
      assert s == s[..|s| - 1] + [s[|s| - 1]];
      if s[|s| - 1] in r then r else r + [s[|s| - 1]]
  }

  /** `df_division[[COD_DEPARTAMENTO, DEPARTAMENTO]].drop_duplicates()` on the padded table. */
  function DivisionNames(padded: seq<Division>): seq<(string, string)> {
    Dedup(DivisionPairs(padded))
  }

  /** The (COD_DEPARTAMENTO, DEPARTAMENTO) columns of the padded division table. */
  function DivisionPairs(padded: seq<Division>): (p: seq<(string, string)>)
    ensures |p| == |padded|
    ensures forall i :: 0 <= i < |padded| ==> p[i] == (DeptText(padded[i].dept), padded[i].deptName)
  {
    seq(|padded|, i requires 0 <= i < |padded| => (DeptText(padded[i].dept), padded[i].deptName))
  }

  /** The grouped counts keyed by their two-digit department text, for the merge. */
  function KeyedGroups(g: seq<((nat, int), nat)>): (k: seq<(Option<string>, ((nat, int), nat))>)
    ensures |k| == |g| && forall i :: 0 <= i < |g| ==> k[i] == (Some(DeptLabel(g[i].0.0)), g[i])
  {
    seq(|g|, i requires 0 <= i < |g| => (Some(DeptLabel(g[i].0.0)), g[i]))
  }

  /** A row of the result: DEPARTAMENTO (missing when unmatched), SEXO as a label, TOTAL_MUERTES. */
  datatype DeptSexRow = DeptSexRow(name: Option<string>, sex: string, total: nat)

  /** The result, read against the already padded division table. */
  function DeptSexView(deaths: seq<Death>, padded: seq<Division>): seq<DeptSexRow> {
    var joined := LeftJoin(KeyedGroups(DeptSexGroups(deaths)), DivisionNames(padded));
    seq(|joined|, i requires 0 <= i < |joined| =>
      DeptSexRow(joined[i].2, SexLabel(joined[i].1.0.1), joined[i].1.1))
  }

  /**
   * `conteo_muertes_por_departamento_y_sexo(df_muertes, df_division)`: pads the
   * caller's division codes in place, every other column untouched, then returns
   * the counts with department names and sex labels.
   */
  method CountByDeptAndSex(deaths: seq<Death>, div: array<Division>) returns (rows: seq<DeptSexRow>)
    modifies div
    ensures div[..] == PadCodes(old(div[..]))
    ensures rows == DeptSexView(deaths, PadCodes(old(div[..])))
  {
    ghost var before := div[..];
    var i := 0;
    while i < div.Length
      invariant 0 <= i <= div.Length
      invariant forall k :: 0 <= k < i ==> div[k] == before[k].(dept := PadCode(before[k].dept))
      invariant forall k :: i <= k < div.Length ==> div[k] == before[k]
    {
      div[i] := div[i].(dept := PadCode(div[i].dept));
      i := i + 1;
    }
    assert div[..] == PadCodes(before);
    rows := DeptSexView(deaths, div[..]);
  }

  /** Every grouped count survives the merge, with its sex label, possibly repeated. */
  lemma DeptSexViewKeepsRows(deaths: seq<Death>, padded: seq<Division>)
    ensures var g := DeptSexGroups(deaths);
      var r := DeptSexView(deaths, padded);
      && |r| >= |g|
      && forall i :: 0 <= i < |g| ==>
           exists j :: 0 <= j < |r| && r[j].sex == SexLabel(g[i].0.1) && r[j].total == g[i].1
  {
    var g := DeptSexGroups(deaths);
    var left := KeyedGroups(g);
    var names := DivisionNames(padded);
    var joined := LeftJoin(left, names);
    var r := DeptSexView(deaths, padded);
    LeftJoinKeepsRows(left, names);
    forall i | 0 <= i < |g|
      ensures exists j :: 0 <= j < |r| && r[j].sex == SexLabel(g[i].0.1) && r[j].total == g[i].1
    {
      var j :| 0 <= j < |joined| && joined[j].0 == left[i].0 && joined[j].1 == left[i].1;
      assert r[j] == DeptSexRow(joined[j].2, SexLabel(joined[j].1.0.1), joined[j].1.1);
    }
  }

  /**
   * The DEPARTAMENTO a row carries for a two-digit `code`: missing exactly when no
   * division row has that code, and otherwise the name of such a row.
   */
  ghost predicate NamesCode(padded: seq<Division>, code: string, name: Option<string>) {
    && (name.None? <==> forall k :: 0 <= k < |padded| ==> DeptText(padded[k].dept) != code)
    && (name.Some? ==>
          exists k :: 0 <= k < |padded| && DeptText(padded[k].dept) == code && name.value == padded[k].deptName)
  }

  /** A name matched for a code in the deduplicated name table names that code. */
  lemma MatchedNames(padded: seq<Division>, code: string, name: Option<string>)
    requires Matched(Some(code), name, DivisionNames(padded))
    ensures NamesCode(padded, code, name)
  {
    var names := DivisionNames(padded);
    var pairs := DivisionPairs(padded);
    if name.None? {
      forall k | 0 <= k < |padded| ensures DeptText(padded[k].dept) != code {
        assert pairs[k] in names;
      }
    } else {
      var m :| 0 <= m < |names| && Some(code) == Some(names[m].0) && name.value == names[m].1;
      assert names[m] in pairs;
      var k :| 0 <= k < |padded| && names[m] == pairs[k];
    }
  }

  /**
   * Whatever the division table holds, every row of the view comes from a grouped count:
   * it carries that group's sex label and count, and a name of the group's department code,
   * missing exactly when no division row has the code. The merge adds no other row.
   */
  lemma DeptSexViewRowsFromGroups(deaths: seq<Death>, padded: seq<Division>)
    ensures var g := DeptSexGroups(deaths);
      var r := DeptSexView(deaths, padded);
      forall j :: 0 <= j < |r| ==>
        exists i :: 0 <= i < |g| && r[j].sex == SexLabel(g[i].0.1) && r[j].total == g[i].1 &&
                    NamesCode(padded, DeptLabel(g[i].0.0), r[j].name)
  {
    var g := DeptSexGroups(deaths);
    var left := KeyedGroups(g);
    var names := DivisionNames(padded);
    var joined := LeftJoin(left, names);
    var r := DeptSexView(deaths, padded);
    LeftJoinRowsFromLeft(left, names);
    LeftJoinMatched(left, names);
    forall j | 0 <= j < |r|
      ensures exists i :: 0 <= i < |g| && r[j].sex == SexLabel(g[i].0.1) && r[j].total == g[i].1 &&
                          NamesCode(padded, DeptLabel(g[i].0.0), r[j].name)
    {
      assert FromLeft(joined[j], left);
      var i :| 0 <= i < |left| && joined[j].0 == left[i].0 && joined[j].1 == left[i].1;
      assert Matched(joined[j].0, joined[j].2, names);
      assert r[j] == DeptSexRow(joined[j].2, SexLabel(g[i].0.1), g[i].1);
      MatchedNames(padded, DeptLabel(g[i].0.0), r[j].name);
    }
  }

  /** The (SEXO, TOTAL_MUERTES) columns of the view, so that `Total` sums them. */
  function SexCounts(rows: seq<DeptSexRow>): (c: seq<(string, nat)>)
    ensures |c| == |rows| && forall i :: 0 <= i < |rows| ==> c[i] == (rows[i].sex, rows[i].total)
  {
    seq(|rows|, i requires 0 <= i < |rows| => (rows[i].sex, rows[i].total))
  }

  /** The division table names each department code once. */
  predicate OneNamePerCode(padded: seq<Division>) {
    UniqueKeys(DivisionNames(padded))
  }

  /**
   * When the division table names each code once, the merge neither drops nor repeats
   * a row: row i is group i with its sex label and count, its name is missing exactly
   * when no division row has the group's two-digit code and is otherwise the name of a
   * division row with that code, and the totals add up to the
   * records where neither department nor sex is missing.
   */
  lemma DeptSexViewSpec(deaths: seq<Death>, padded: seq<Division>)
    requires OneNamePerCode(padded)
    ensures var g := DeptSexGroups(deaths);
      var r := DeptSexView(deaths, padded);
      && |r| == |g|
      && (forall i :: 0 <= i < |r| ==>
            && r[i].sex == SexLabel(g[i].0.1) && r[i].total == g[i].1
            && (r[i].name.None? <==>
                  forall k :: 0 <= k < |padded| ==> DeptText(padded[k].dept) != DeptLabel(g[i].0.0))
            && (r[i].name.Some? ==>
                  exists k :: 0 <= k < |padded| && DeptText(padded[k].dept) == DeptLabel(g[i].0.0) &&
                    r[i].name.value == padded[k].deptName))
      && Total(SexCounts(r)) == NonNull(DeptSexKeys(deaths))
  {
    var g := DeptSexGroups(deaths);
    var left := KeyedGroups(g);
    var names := DivisionNames(padded);
    var r := DeptSexView(deaths, padded);
    LeftJoinUnique(left, names);
    forall i | 0 <= i < |r|
      ensures r[i].name.None? <==>
        forall k :: 0 <= k < |padded| ==> DeptText(padded[k].dept) != DeptLabel(g[i].0.0)
      ensures r[i].name.Some? ==>
        exists k :: 0 <= k < |padded| && DeptText(padded[k].dept) == DeptLabel(g[i].0.0) &&
                    r[i].name.value == padded[k].deptName
    {
      assert r[i].name == Lookup(Some(DeptLabel(g[i].0.0)), names);
      LookupName(padded, DeptLabel(g[i].0.0));
    }
    DeptSexGroupsSpec(deaths);
    TotalSameCounts(SexCounts(r), g);
  }

  /**
   * A code has a name in the deduplicated table exactly when some division row has that
   * code, and the name found is the name of such a row.
   */
  lemma LookupName(padded: seq<Division>, code: string)
    ensures Lookup(Some(code), DivisionNames(padded)).None? <==>
      forall k :: 0 <= k < |padded| ==> DeptText(padded[k].dept) != code
    ensures Lookup(Some(code), DivisionNames(padded)).Some? ==>
      exists k :: 0 <= k < |padded| && DeptText(padded[k].dept) == code &&
                  Lookup(Some(code), DivisionNames(padded)).value == padded[k].deptName
  {
    var names := DivisionNames(padded);
    if Lookup(Some(code), names).None? {
      forall k | 0 <= k < |padded| ensures DeptText(padded[k].dept) != code {
        assert DivisionPairs(padded)[k] in DivisionPairs(padded);
      }
    } else {
      var j :| 0 <= j < |names| && Some(code) == Some(names[j].0) && Lookup(Some(code), names).value == names[j].1;
      assert names[j] in DivisionPairs(padded);
      var k :| 0 <= k < |padded| && names[j] == DivisionPairs(padded)[k];
    }
  }

  /** The (code, sex) keys of department `d`. */
  function InDept(d: nat): ((nat, int)) -> bool {
    (key: (nat, int)) => key.0 == d
  }

  /** Records with department `d` and a sex are the records with department `d`, when no sex is missing. */
  lemma {:induction false} CountWhereDept(deaths: seq<Death>, d: nat)
    requires forall i :: 0 <= i < |deaths| && deaths[i].dept.Some? ==> deaths[i].sex.Some?
    ensures CountWhere(DeptSexKeys(deaths), InDept(d)) == Occ(Departments.DeptKeys(deaths), d)
  {
    if deaths != [] {
      var init := deaths[..|deaths| - 1];
      CountWhereDept(init, d);
      assert DeptSexKeys(deaths)[..|deaths| - 1] == DeptSexKeys(init);
      assert Departments.DeptKeys(deaths)[..|deaths| - 1] == Departments.DeptKeys(init);
    }
  }

  /**
   * When every record with a department also has a sex, the department × sex counts of a
   * department add up to its number of records, which is the map view's total for it.
   */
  lemma DeptSexTotalsMatchMap(deaths: seq<Death>)
    requires forall i :: 0 <= i < |deaths| && deaths[i].dept.Some? ==> deaths[i].sex.Some?
    ensures forall d: nat :: TotalWhere(DeptSexGroups(deaths), InDept(d)) == Occ(Departments.DeptKeys(deaths), d)
    ensures var m := Departments.CountByDepartment(deaths);
      forall i :: 0 <= i < |m| ==>
        TotalWhere(DeptSexGroups(deaths), InDept(Departments.DeptGroups(deaths)[i].0)) == m[i].1
  {
    forall d: nat ensures TotalWhere(DeptSexGroups(deaths), InDept(d)) == Occ(Departments.DeptKeys(deaths), d) {
      TotalWhereSortBy(GroupSize(DeptSexKeys(deaths)), ByDeptSex, InDept(d));
      TotalWhereGroupSize(DeptSexKeys(deaths), InDept(d));
      CountWhereDept(deaths, d);
    }
    Departments.CountByDepartmentSpec(deaths);
  }

  /**
   * As written the property fails for a record with a department and no sex: the map view
   * counts it under "05", while line 158 drops it from the department × sex view.
   */
  lemma MissingSexBreaksTotals(padded: seq<Division>)
    ensures var deaths := [Death(2019, Blank, Some(5), None, None, Blank, None)];
      && Departments.CountByDepartment(deaths) == [("05", 1)]
      && TotalWhere(DeptSexGroups(deaths), InDept(5)) == 0
      && DeptSexView(deaths, padded) == []
  {
    var deaths := [Death(2019, Blank, Some(5), None, None, Blank, None)];
    assert DeptSexKeys(deaths) == [None];
    assert GroupSize(DeptSexKeys(deaths)) == [] by {
      assert DeptSexKeys(deaths)[..0] == [];
    }
    assert Departments.DeptKeys(deaths) == [Some(5)];
    assert GroupSize(Departments.DeptKeys(deaths)) == [(5, 1)] by {
      assert Departments.DeptKeys(deaths)[..0] == [];
    }
    assert Departments.DeptGroups(deaths) == [(5, 1)];
    DeptLabelRoundTrip(5);
    assert NatToString(5) == "5";
    assert DeptLabel(5) == "05";
    var m := Departments.CountByDepartment(deaths);
    assert |m| == 1 && m[0] == (DeptLabel(5), 1);
  }

  /** One record: department 5, sex 1. */
  function OneMaleRecord(): seq<Death> {
    [Death(2019, Blank, Some(5), None, None, Blank, Some(1))]
  }

  /** A division table that spells department 05 two ways. */
  function TwoSpellings(): seq<Division> {
    [Division(StrCode("05"), "ANTIOQUIA", 1, "MEDELLIN"), Division(StrCode("05"), "Antioquia", 2, "BELLO")]
  }

  lemma OneMaleGroups()
    ensures DeptSexGroups(OneMaleRecord()) == [((5, 1), 1)]
    ensures Departments.CountByDepartment(OneMaleRecord()) == [("05", 1)]
  {
    var deaths := OneMaleRecord();
    assert DeptSexKeys(deaths) == [Some((5, 1))];
    assert GroupSize(DeptSexKeys(deaths)) == [((5, 1), 1)] by {
      assert DeptSexKeys(deaths)[..0] == [];
    }
    assert Departments.DeptKeys(deaths) == [Some(5)];
    assert GroupSize(Departments.DeptKeys(deaths)) == [(5, 1)] by {
      assert Departments.DeptKeys(deaths)[..0] == [];
    }
    DeptLabelRoundTrip(5);
    assert NatToString(5) == "5";
    assert DeptLabel(5) == "05";
    var m := Departments.CountByDepartment(deaths);
    assert |m| == 1 && m[0] == (DeptLabel(5), 1);
  }

  lemma TwoSpellingsNames()
    ensures DivisionNames(TwoSpellings()) == [("05", "ANTIOQUIA"), ("05", "Antioquia")]
  {
    var pairs := DivisionPairs(TwoSpellings());
    assert pairs == [("05", "ANTIOQUIA"), ("05", "Antioquia")];
    assert pairs[..1] == [("05", "ANTIOQUIA")] && pairs[..1][..0] == [];
    assert Dedup(pairs[..1]) == [("05", "ANTIOQUIA")];
    assert "ANTIOQUIA"[1] != "Antioquia"[1];
    assert pairs[1] !in Dedup(pairs[..1]);
  }

  lemma TwoSpellingsJoin()
    ensures LeftJoin([(Some("05"), ((5, 1), 1))], DivisionNames(TwoSpellings())) ==
      [(Some("05"), ((5, 1), 1), Some("ANTIOQUIA")), (Some("05"), ((5, 1), 1), Some("Antioquia"))]
  {
    var names := DivisionNames(TwoSpellings());
    TwoSpellingsNames();
    assert Matches(Some("05"), names) == ["ANTIOQUIA", "Antioquia"] by {
      assert names[1..] == [("05", "Antioquia")] && names[1..][1..] == [];
    }
    assert [(Some("05"), ((5, 1), 1))][1..] == [];
  }

  /** The view of the one record against the two spellings: the group twice, once per name. */
  lemma TwoSpellingsView()
    ensures DeptSexView(OneMaleRecord(), TwoSpellings()) ==
      [DeptSexRow(Some("ANTIOQUIA"), "Masculino", 1), DeptSexRow(Some("Antioquia"), "Masculino", 1)]
  {
    OneMaleKeyed();
    TwoSpellingsJoin();
    var joined := LeftJoin(KeyedGroups(DeptSexGroups(OneMaleRecord())), DivisionNames(TwoSpellings()));
    assert joined == [(Some("05"), ((5, 1), 1), Some("ANTIOQUIA")), (Some("05"), ((5, 1), 1), Some("Antioquia"))];
  }

  /** The one record's group keyed by its department text. */
  lemma OneMaleKeyed()
    ensures KeyedGroups(DeptSexGroups(OneMaleRecord())) == [(Some("05"), ((5, 1), 1))]
  {
    OneMaleGroups();
    DeptLabelRoundTrip(5);
    assert NatToString(5) == "5";
    var g := DeptSexGroups(OneMaleRecord());
    assert DeptLabel(g[0].0.0) == "05";
  }

  /**
   * The property also fails when the division table spells a code's name two ways: the
   * merge at lines 169-173 repeats the one group, so the view counts its record twice
   * while the map view counts it once.
   */
  lemma TwoSpellingsBreakTotals()
    ensures Departments.CountByDepartment(OneMaleRecord()) == [("05", 1)]
    ensures DeptSexView(OneMaleRecord(), TwoSpellings()) ==
      [DeptSexRow(Some("ANTIOQUIA"), "Masculino", 1), DeptSexRow(Some("Antioquia"), "Masculino", 1)]
    ensures Total(SexCounts(DeptSexView(OneMaleRecord(), TwoSpellings()))) == 2
  {
    OneMaleGroups();
    TwoSpellingsView();
    var c: seq<(string, nat)> := SexCounts(DeptSexView(OneMaleRecord(), TwoSpellings()));
    assert c == [("Masculino", 1), ("Masculino", 1)];
    var tail: seq<(string, nat)> := c[1..];
    assert tail[1..] == [];
  }
}
