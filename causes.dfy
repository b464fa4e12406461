/**
 * `causas_principales_muerte`: cause codes normalised in the caller's table,
 * short codes dropped, counted per code, merged with their description,
 * sorted by count, truncated and ranked 1..n.
 */
module Causes {
  import opened Options
  import opened Text
  import opened Tables
  import opened Grouping
  import opened Ranking
  import opened Joins
  import opened Filters

  /** The renamed copy of the code table with its COD_MUERTE column normalised. */
  function CodeTable(codes: seq<CauseCode>): (t: seq<(string, string)>)
    ensures |t| == |codes|
    ensures forall i :: 0 <= i < |codes| ==> t[i] == (NormalizeCode(codes[i].code), codes[i].description)
  {
    seq(|codes|, i requires 0 <= i < |codes| => (NormalizeCode(codes[i].code), codes[i].description))
  }

  /** The COD_MUERTE column. */
  function CauseKeys(deaths: seq<Death>): (k: seq<Option<string>>)
    ensures |k| == |deaths| && forall i :: 0 <= i < |deaths| ==> k[i] == deaths[i].cause
  {
    seq(|deaths|, i requires 0 <= i < |deaths| => deaths[i].cause)
  }

  /** The cause codes counted, read from records whose codes are already normalised. */
  function CountedKeys(normalized: seq<Death>): seq<Option<string>> {
    CauseKeys(FilterMinLength(normalized, 4))
  }

  /** `conteo.merge(df_codigos[['COD_MUERTE', 'DESCRIPCION']], on='COD_MUERTE', how='left')`. */
  function Described(groups: seq<(string, nat)>, codes: seq<CauseCode>): (r: seq<((string, Option<string>), nat)>) {
    var joined := LeftJoin(Keyed(groups), CodeTable(codes));
    seq(|joined|, i requires 0 <= i < |joined| => ((joined[i].1.0, joined[i].2), joined[i].1.1))
  }

  /** A row of the causes table: COD_MUERTE, DESCRIPCION, TOTAL_CASOS and RANK. */
  datatype CauseRow = CauseRow(code: string, description: Option<string>, total: nat, rank: nat)

  /** The causes table computed from records whose cause codes are already normalised. */
  function RankCauses(normalized: seq<Death>, codes: seq<CauseCode>, topN: int): seq<CauseRow> {
    var top := TopN(Described(GroupSize(CountedKeys(normalized)), codes), ByCountDesc, topN);
    var ranked := WithRank(top);
    seq(|ranked|, i requires 0 <= i < |ranked| =>
      CauseRow(ranked[i].0.0, ranked[i].0.1, ranked[i].1, ranked[i].2))
  }

  /** The causes table `causas_principales_muerte` returns for the records as given. */
  function TopCausesOf(deaths: seq<Death>, codes: seq<CauseCode>, topN: int): seq<CauseRow> {
    RankCauses(NormalizedCauses(deaths), codes, topN)
  }

  /**
   * `causas_principales_muerte(df_muertes, df_codigos, top_n)`: normalises the caller's
   * COD_MUERTE column in place, then returns the ranked causes.
   */
  method TopCauses(a: array<Death>, codes: seq<CauseCode>, topN: int) returns (rows: seq<CauseRow>)
    modifies a
    ensures a[..] == NormalizedCauses(old(a[..]))
    ensures rows == TopCausesOf(old(a[..]), codes, topN)
  {
    NormalizeCauseColumn(a);
    rows := RankCauses(a[..], codes, topN);
  }

  /** Every described row is a counted code with its count. */
  lemma DescribedFromGroups(groups: seq<(string, nat)>, codes: seq<CauseCode>)
    ensures forall j :: 0 <= j < |Described(groups, codes)| ==>
      (Described(groups, codes)[j].0.0, Described(groups, codes)[j].1) in groups
  {
    var left := Keyed(groups);
    var joined := LeftJoin(left, CodeTable(codes));
    var r := Described(groups, codes);
    LeftJoinRowsFromLeft(left, CodeTable(codes));
    forall j | 0 <= j < |r| ensures (r[j].0.0, r[j].1) in groups {
      assert FromLeft(joined[j], left);
      var i :| 0 <= i < |left| && joined[j].0 == left[i].0 && joined[j].1 == left[i].1;
      assert (r[j].0.0, r[j].1) == groups[i];
    }
  }

  /** Every counted code keeps a row with its count through the merge with the descriptions. */
  lemma DescribedKeeps(groups: seq<(string, nat)>, codes: seq<CauseCode>)
    ensures |Described(groups, codes)| >= |groups|
    ensures forall i :: 0 <= i < |groups| ==>
      exists j :: 0 <= j < |Described(groups, codes)| &&
        Described(groups, codes)[j].0.0 == groups[i].0 && Described(groups, codes)[j].1 == groups[i].1
  {
    var left := Keyed(groups);
    var joined := LeftJoin(left, CodeTable(codes));
    var r := Described(groups, codes);
    LeftJoinKeepsRows(left, CodeTable(codes));
    forall i | 0 <= i < |groups|
      ensures exists j :: 0 <= j < |r| && r[j].0.0 == groups[i].0 && r[j].1 == groups[i].1
    {
      var j :| 0 <= j < |joined| && joined[j].0 == left[i].0 && joined[j].1 == left[i].1;
      assert r[j].0.0 == joined[j].1.0;
    }
  }

  /**
   * The DESCRIPCION a row carries for `code`: missing exactly when no row of the code
   * table has that normalised code, and otherwise the description of such a row.
   */
  ghost predicate Describes(codes: seq<CauseCode>, code: string, desc: Option<string>) {
    && (desc.None? <==> forall k :: 0 <= k < |codes| ==> NormalizeCode(codes[k].code) != code)
    && (desc.Some? ==>
          exists k :: 0 <= k < |codes| && NormalizeCode(codes[k].code) == code && desc.value == codes[k].description)
  }

  /** A value matched for a code in the code table is a description of that code. */
  lemma MatchedDescribes(codes: seq<CauseCode>, code: string, desc: Option<string>)
    requires Matched(Some(code), desc, CodeTable(codes))
    ensures Describes(codes, code, desc)
  {
    var t := CodeTable(codes);
    if desc.Some? {
      var k :| 0 <= k < |t| && Some(code) == Some(t[k].0) && desc.value == t[k].1;
    }
  }

  /**
   * Every row of the merge, whatever the code table holds, carries a description of its
   * own code: missing exactly when the code table lacks the code.
   */
  lemma DescribedDescriptions(groups: seq<(string, nat)>, codes: seq<CauseCode>)
    ensures forall j :: 0 <= j < |Described(groups, codes)| ==>
      Describes(codes, Described(groups, codes)[j].0.0, Described(groups, codes)[j].0.1)
  {
    var left := Keyed(groups);
    var t := CodeTable(codes);
    var joined := LeftJoin(left, t);
    var r := Described(groups, codes);
    LeftJoinMatched(left, t);
    LeftJoinRowsFromLeft(left, t);
    forall j | 0 <= j < |r| ensures Describes(codes, r[j].0.0, r[j].0.1) {
      assert FromLeft(joined[j], left);
      var i :| 0 <= i < |left| && joined[j].0 == left[i].0 && joined[j].1 == left[i].1;
      assert Matched(joined[j].0, joined[j].2, t);
      assert joined[j].0 == Some(r[j].0.0) && joined[j].2 == r[j].0.1;
      MatchedDescribes(codes, r[j].0.0, r[j].0.1);
    }
  }

  /**
   * When the code table lists each normalised code once, the merge neither drops nor
   * repeats a count: row i is count i, and its description is the description of the
   * code-table row with that code, missing exactly when no such row exists.
   */
  lemma DescribedUnique(groups: seq<(string, nat)>, codes: seq<CauseCode>)
    requires UniqueKeys(CodeTable(codes))
    ensures var r := Described(groups, codes);
      && |r| == |groups|
      && (forall i :: 0 <= i < |groups| ==>
            r[i] == ((groups[i].0, Lookup(Some(groups[i].0), CodeTable(codes))), groups[i].1))
      && (forall i :: 0 <= i < |groups| ==>
            (r[i].0.1.None? <==> forall k :: 0 <= k < |codes| ==> NormalizeCode(codes[k].code) != groups[i].0))
      && (forall i :: 0 <= i < |groups| && r[i].0.1.Some? ==>
            exists k :: 0 <= k < |codes| && NormalizeCode(codes[k].code) == groups[i].0 &&
              r[i].0.1.value == codes[k].description)
  {
    var r := Described(groups, codes);
    LeftJoinUnique(Keyed(groups), CodeTable(codes));
    forall i | 0 <= i < |groups|
      ensures r[i].0.1.None? <==> forall k :: 0 <= k < |codes| ==> NormalizeCode(codes[k].code) != groups[i].0
      ensures r[i].0.1.Some? ==>
        exists k :: 0 <= k < |codes| && NormalizeCode(codes[k].code) == groups[i].0 &&
                    r[i].0.1.value == codes[k].description
    {
      LookupDescription(codes, groups[i].0);
    }
  }

  /** Looking a code up in the code table finds the description of a row with that normalised code. */
  lemma LookupDescription(codes: seq<CauseCode>, code: string)
    ensures Lookup(Some(code), CodeTable(codes)).None? <==>
      forall k :: 0 <= k < |codes| ==> NormalizeCode(codes[k].code) != code
    ensures Lookup(Some(code), CodeTable(codes)).Some? ==>
      exists k :: 0 <= k < |codes| && NormalizeCode(codes[k].code) == code &&
                  Lookup(Some(code), CodeTable(codes)).value == codes[k].description
  {
    var t := CodeTable(codes);
    if Lookup(Some(code), t).Some? {
      var k :| 0 <= k < |t| && Some(code) == Some(t[k].0) && Lookup(Some(code), t).value == t[k].1;
    }
  }

  /** A counted code is a normalised code of at least four characters. */
  lemma CountedKeysNormalized(deaths: seq<Death>, code: string)
    requires code in Present(CountedKeys(NormalizedCauses(deaths)))
    ensures |code| >= 4 && Normalize(code) == code
    ensures exists i :: 0 <= i < |deaths| && NormalizeCode(deaths[i].cause) == code
  {
    var kept := FilterMinLength(NormalizedCauses(deaths), 4);
    var keys := CauseKeys(kept);
    OccPresent(keys, code);
    OccWitness(keys, code);
    var k :| 0 <= k < |keys| && keys[k] == Some(code);
    assert kept[k] in multiset(NormalizedCauses(deaths));
    var i :| 0 <= i < |deaths| && NormalizedCauses(deaths)[i] == kept[k];
    NormalizeIdempotent(AsText(deaths[i].cause));
  }

  /** The rows kept after sorting and truncation, before ranking. */
  function TopDescribed(normalized: seq<Death>, codes: seq<CauseCode>, topN: int): seq<((string, Option<string>), nat)> {
    TopN(Described(GroupSize(CountedKeys(normalized)), codes), ByCountDesc, topN)
  }

  /** A row kept after sorting and truncating the described counts is a counted code with its count. */
  lemma TopOfDescribed(g: seq<(string, nat)>, codes: seq<CauseCode>, topN: int, i: nat)
    requires i < |TopN(Described(g, codes), ByCountDesc, topN)|
    ensures var row := TopN(Described(g, codes), ByCountDesc, topN)[i];
      (row.0.0, row.1) in g
  {
    var d := Described(g, codes);
    var top := TopN(d, ByCountDesc, topN);
    TopNSpec(d, ByCountDesc, topN);
    DescribedFromGroups(g, codes);
    assert top[i] in multiset(d);
    var j :| 0 <= j < |d| && d[j] == top[i];
  }

  /** Each kept row is a counted code with its number of records. */
  lemma TopDescribedRow(normalized: seq<Death>, codes: seq<CauseCode>, topN: int, i: nat)
    requires i < |TopDescribed(normalized, codes, topN)|
    ensures var row := TopDescribed(normalized, codes, topN)[i];
      && row.0.0 in Present(CountedKeys(normalized))
      && row.1 == Occ(CountedKeys(normalized), row.0.0) >= 1
  {
    var keys := CountedKeys(normalized);
    var g := GroupSize(keys);
    TopOfDescribed(g, codes, topN, i);
    var top := TopDescribed(normalized, codes, topN);
    var row := (top[i].0.0, top[i].1);
    var k :| 0 <= k < |g| && g[k] == row;
    assert row.0 in KeySet(g);
  }

  /** Ranking numbers the kept rows 1..n and keeps their codes and totals. */
  lemma RankCausesRows(normalized: seq<Death>, codes: seq<CauseCode>, topN: int)
    ensures var top := TopDescribed(normalized, codes, topN);
      var r := RankCauses(normalized, codes, topN);
      && |r| == |top|
      && forall i :: 0 <= i < |r| ==>
           r[i].code == top[i].0.0 && r[i].description == top[i].0.1 && r[i].total == top[i].1 && r[i].rank == i + 1
  {
  }

  /** Each row of the ranked table carries a description of its own code. */
  lemma RankedDescription(normalized: seq<Death>, codes: seq<CauseCode>, topN: int, i: nat)
    requires i < |RankCauses(normalized, codes, topN)|
    ensures var row := RankCauses(normalized, codes, topN)[i];
      Describes(codes, row.code, row.description)
  {
    var d := Described(GroupSize(CountedKeys(normalized)), codes);
    var top := TopDescribed(normalized, codes, topN);
    TopNSpec(d, ByCountDesc, topN);
    RankCausesRows(normalized, codes, topN);
    DescribedDescriptions(GroupSize(CountedKeys(normalized)), codes);
    assert top[i] in multiset(d);
    var j :| 0 <= j < |d| && d[j] == top[i];
  }

  /**
   * The table ranked from normalised records: the first top_n merged rows (all of them
   * when fewer), ranks 1..n in row order, totals non-increasing, each code a counted code
   * with its number of records and a description of that code from the code table, and no
   * counted code left out has more records than one kept.
   */
  lemma RankCausesSpec(normalized: seq<Death>, codes: seq<CauseCode>, topN: int)
    ensures var keys := CountedKeys(normalized);
      var r := RankCauses(normalized, codes, topN);
      var d := Described(GroupSize(keys), codes);
      && (0 <= topN ==> |r| == if topN < |d| then topN else |d|)
      && (forall i :: 0 <= i < |r| ==> r[i].rank == i + 1)
      && (forall i, j :: 0 <= i < j < |r| ==> r[i].total >= r[j].total)
      && (forall i :: 0 <= i < |r| ==> r[i].code in Present(keys) && r[i].total == Occ(keys, r[i].code) >= 1)
      && (forall i :: 0 <= i < |r| ==> Describes(codes, r[i].code, r[i].description))
      && (forall i, t :: 0 <= i < |r| && t in Present(keys) && (forall j :: 0 <= j < |r| ==> r[j].code != t) ==>
            Occ(keys, t) <= r[i].total)
  {
    var keys := CountedKeys(normalized);
    var r := RankCauses(normalized, codes, topN);
    RankCausesOrder(normalized, codes, topN);
    forall i | 0 <= i < |r| ensures r[i].code in Present(keys) && r[i].total == Occ(keys, r[i].code) >= 1 {
      TopDescribedRow(normalized, codes, topN, i);
    }
    forall i | 0 <= i < |r| ensures Describes(codes, r[i].code, r[i].description) {
      RankedDescription(normalized, codes, topN, i);
    }
    forall i, t | 0 <= i < |r| && t in Present(keys) && (forall j :: 0 <= j < |r| ==> r[j].code != t)
      ensures Occ(keys, t) <= r[i].total
    {
      LeftOutCause(normalized, codes, topN, i, t);
    }
  }

  /** The ranked table holds the first top_n merged rows, numbered 1..n, with non-increasing totals. */
  lemma RankCausesOrder(normalized: seq<Death>, codes: seq<CauseCode>, topN: int)
    ensures var r := RankCauses(normalized, codes, topN);
      var d := Described(GroupSize(CountedKeys(normalized)), codes);
      && (0 <= topN ==> |r| == if topN < |d| then topN else |d|)
      && (forall i :: 0 <= i < |r| ==> r[i].rank == i + 1)
      && (forall i, j :: 0 <= i < j < |r| ==> r[i].total >= r[j].total)
  {
    var top := TopDescribed(normalized, codes, topN);
    var r := RankCauses(normalized, codes, topN);
    TopNSpec(Described(GroupSize(CountedKeys(normalized)), codes), ByCountDesc, topN);
    RankCausesRows(normalized, codes, topN);
    forall i, j | 0 <= i < j < |r| ensures r[i].total >= r[j].total {
      assert LexLe(ByCountDesc(top[i]), ByCountDesc(top[j]));
    }
  }

  /** A counted code missing from the truncated table has no more records than any code kept. */
  lemma LeftOutCause(normalized: seq<Death>, codes: seq<CauseCode>, topN: int, i: nat, t: string)
    requires i < |RankCauses(normalized, codes, topN)|
    requires t in Present(CountedKeys(normalized))
    requires forall j :: 0 <= j < |RankCauses(normalized, codes, topN)| ==> RankCauses(normalized, codes, topN)[j].code != t
    ensures Occ(CountedKeys(normalized), t) <= RankCauses(normalized, codes, topN)[i].total
  {
    var keys := CountedKeys(normalized);
    var g := GroupSize(keys);
    var d := Described(g, codes);
    var top := TopDescribed(normalized, codes, topN);
    var r := RankCauses(normalized, codes, topN);
    RankCausesRows(normalized, codes, topN);
    assert t in KeySet(g);
    var k :| 0 <= k < |g| && g[k].0 == t;
    DescribedKeeps(g, codes);
    var j :| 0 <= j < |d| && d[j].0.0 == t && d[j].1 == g[k].1;
    assert forall m :: 0 <= m < |top| ==> top[m].0.0 == r[m].code;
    LeftOutOfTop(d, topN, i, j);
  }

  /** A described row whose code is not kept by the truncation has no larger count than a row kept. */
  lemma LeftOutOfTop(d: seq<((string, Option<string>), nat)>, topN: int, i: nat, j: nat)
    requires i < |TopN(d, ByCountDesc, topN)| && j < |d|
    requires forall m :: 0 <= m < |TopN(d, ByCountDesc, topN)| ==> TopN(d, ByCountDesc, topN)[m].0.0 != d[j].0.0
    ensures d[j].1 <= TopN(d, ByCountDesc, topN)[i].1
  {
    var top := TopN(d, ByCountDesc, topN);
    TopNSpec(d, ByCountDesc, topN);
    assert d[j] !in multiset(top) by {
      forall m | 0 <= m < |top| ensures top[m] != d[j] {
      }
    }
    assert d[j] in multiset(d) - multiset(top);
    assert top[i] in top;
    assert LexLe(ByCountDesc(top[i]), ByCountDesc(d[j]));
  }

  /**
   * The causes table: top_n rows (all merged rows when fewer), ranks 1..n in row order,
   * totals non-increasing; every code carries the number of records whose normalised code
   * it is and a description of that code from the code table, and no counted code left out
   * has more records than one kept.
   */
  lemma TopCausesSpec(deaths: seq<Death>, codes: seq<CauseCode>, topN: int)
    ensures var keys := CountedKeys(NormalizedCauses(deaths));
      var r := TopCausesOf(deaths, codes, topN);
      var d := Described(GroupSize(keys), codes);
      && (0 <= topN ==> |r| == if topN < |d| then topN else |d|)
      && (forall i :: 0 <= i < |r| ==> r[i].rank == i + 1)
      && (forall i, j :: 0 <= i < j < |r| ==> r[i].total >= r[j].total)
      && (forall i :: 0 <= i < |r| ==>
            r[i].total == Occ(keys, r[i].code) >= 1)
      && (forall i :: 0 <= i < |r| ==> Describes(codes, r[i].code, r[i].description))
      && (forall i, t :: 0 <= i < |r| && t in Present(keys) && (forall j :: 0 <= j < |r| ==> r[j].code != t) ==>
            Occ(keys, t) <= r[i].total)
  {
    var r := TopCausesOf(deaths, codes, topN);
    RankCausesSpec(NormalizedCauses(deaths), codes, topN);
  }

  /** One row's code of the causes table is a normalised code of at least four characters. */
  lemma TopCausesCode(deaths: seq<Death>, codes: seq<CauseCode>, topN: int, i: nat)
    requires i < |TopCausesOf(deaths, codes, topN)|
    ensures var code := TopCausesOf(deaths, codes, topN)[i].code;
      |code| >= 4 && Normalize(code) == code
  {
    var normalized := NormalizedCauses(deaths);
    RankCausesSpec(normalized, codes, topN);
    CountedKeysNormalized(deaths, RankCauses(normalized, codes, topN)[i].code);
  }

  /** Every code of the causes table is trimmed, upper-cased and at least four characters long. */
  lemma TopCausesCodes(deaths: seq<Death>, codes: seq<CauseCode>, topN: int)
    ensures var r := TopCausesOf(deaths, codes, topN);
      forall i :: 0 <= i < |r| ==> |r[i].code| >= 4 && Normalize(r[i].code) == r[i].code
  {
    var r := TopCausesOf(deaths, codes, topN);
    forall i | 0 <= i < |r| ensures |r[i].code| >= 4 && Normalize(r[i].code) == r[i].code {
      TopCausesCode(deaths, codes, topN, i);
    }
  }
}
