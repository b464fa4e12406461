/**
 * `ciudades_mas_violentas` and `ciudades_menos_mortalidad`: records joined to
 * their municipality name through COD_DANE, counted per municipality, sorted
 * by count and truncated.
 */
module Cities {
  import opened Options
  import opened Tables
  import opened Grouping
  import opened Ranking
  import opened Joins
  import opened Filters

  /** `df_division[['COD_DANE', 'MUNICIPIO']]`. */
  function TownTable(div: seq<Division>): (t: seq<(int, string)>)
    ensures |t| == |div| && forall i :: 0 <= i < |div| ==> t[i] == (div[i].dane, div[i].town)
  {
    seq(|div|, i requires 0 <= i < |div| => (div[i].dane, div[i].town))
  }

  function DaneKeyed(deaths: seq<Death>): (k: seq<(Option<int>, Death)>)
    ensures |k| == |deaths| && forall i :: 0 <= i < |deaths| ==> k[i] == (deaths[i].dane, deaths[i])
  {
    seq(|deaths|, i requires 0 <= i < |deaths| => (deaths[i].dane, deaths[i]))
  }

  /** The MUNICIPIO column after `merge(..., on='COD_DANE', how='left')`: missing where no municipality matched. */
  function TownKeys(deaths: seq<Death>, div: seq<Division>): (k: seq<Option<string>>) {
    var joined := LeftJoin(DaneKeyed(deaths), TownTable(div));
    seq(|joined|, i requires 0 <= i < |joined| => joined[i].2)
  }

  /**
   * With municipality codes that are unique in the division table the join gives each
   * record exactly its own municipality name, missing when its code is unknown.
   */
  lemma TownKeysSpec(deaths: seq<Death>, div: seq<Division>)
    ensures |TownKeys(deaths, div)| >= |deaths|
    ensures UniqueKeys(TownTable(div)) ==>
      |TownKeys(deaths, div)| == |deaths| &&
      forall i :: 0 <= i < |deaths| ==> TownKeys(deaths, div)[i] == Lookup(deaths[i].dane, TownTable(div))
  {
    LeftJoinKeepsRows(DaneKeyed(deaths), TownTable(div));
    if UniqueKeys(TownTable(div)) {
      LeftJoinUnique(DaneKeyed(deaths), TownTable(div));
    }
  }

  /** The homicide records: cause code starting with X95 in either case. */
  function Homicides(deaths: seq<Death>): seq<Death> {
    Filter(deaths, IsHomicide)
  }

  /** `ciudades_mas_violentas(df_muertes, df_division, top_n)`. */
  function MostViolentCities(deaths: seq<Death>, div: seq<Division>, topN: int): seq<(string, nat)> {
    TopN(GroupSize(TownKeys(Homicides(deaths), div)), ByCountDesc, topN)
  }

  /** `ciudades_menos_mortalidad(df_muertes, df_division, top_n)`. */
  function LeastMortalityCities(deaths: seq<Death>, div: seq<Division>, topN: int): seq<(string, nat)> {
    TopN(GroupSize(TownKeys(deaths, div)), ByCountAsc, topN)
  }

  /** A municipality left out of the truncated table ranks no earlier than any municipality kept. */
  lemma LeftOutRanksLater(keys: seq<Option<string>>, rank: ((string, nat)) -> (int, int), n: int, i: nat, t: string)
    requires i < |TopN(GroupSize(keys), rank, n)|
    requires t in Present(keys) && t !in KeySet(TopN(GroupSize(keys), rank, n))
    ensures LexLe(rank(TopN(GroupSize(keys), rank, n)[i]), rank((t, Occ(keys, t))))
  {
    var g := GroupSize(keys);
    var r := TopN(g, rank, n);
    TopNSpec(g, rank, n);
    assert t in KeySet(g);
    var j :| 0 <= j < |g| && g[j].0 == t;
    assert g[j] == (t, Occ(keys, t));
    assert g[j] !in multiset(r) by {
      forall k | 0 <= k < |r| ensures r[k] != g[j] {
        assert r[k].0 in KeySet(r);
      }
    }
    assert g[j] in multiset(g) - multiset(r);
    assert r[i] in r;
  }

  /** What a truncated, sorted per-municipality count promises, for either order. */
  lemma TopTowns(keys: seq<Option<string>>, rank: ((string, nat)) -> (int, int), n: int)
    ensures var g := GroupSize(keys);
      var r := TopN(g, rank, n);
      && Distinct(r)
      && (forall i :: 0 <= i < |r| ==> r[i].1 == Occ(keys, r[i].0) >= 1)
      && SortedBy(r, rank)
      && (0 <= n ==> |r| == if n < |g| then n else |g|)
      && (forall i, t :: 0 <= i < |r| && t in Present(keys) && t !in KeySet(r) ==>
            LexLe(rank(r[i]), rank((t, Occ(keys, t)))))
  {
    var g := GroupSize(keys);
    var r := TopN(g, rank, n);
    TopNSpec(g, rank, n);
    TalliesSub(g, r, keys);
    forall i, t | 0 <= i < |r| && t in Present(keys) && t !in KeySet(r)
      ensures LexLe(rank(r[i]), rank((t, Occ(keys, t))))
    {
      LeftOutRanksLater(keys, rank, n, i, t);
    }
  }

  /**
   * The most violent cities: top_n municipalities (all when fewer occur), none twice, each
   * with its number of X95 homicides, in non-increasing order, and no municipality left
   * out has more homicides than one shown.
   */
  lemma MostViolentCitiesSpec(deaths: seq<Death>, div: seq<Division>, topN: int)
    ensures var keys := TownKeys(Homicides(deaths), div);
      var r := MostViolentCities(deaths, div, topN);
      && Distinct(r)
      && (forall i :: 0 <= i < |r| ==> r[i].1 == Occ(keys, r[i].0) >= 1)
      && (forall i, j :: 0 <= i < j < |r| ==> r[i].1 >= r[j].1)
      && (0 <= topN ==> |r| == if topN < |GroupSize(keys)| then topN else |GroupSize(keys)|)
      && (forall i, t :: 0 <= i < |r| && t in Present(keys) && t !in KeySet(r) ==> Occ(keys, t) <= r[i].1)
  {
    TopTowns(TownKeys(Homicides(deaths), div), ByCountDesc, topN);
  }

  /**
   * The cities with least mortality: top_n municipalities (all when fewer occur), none twice,
   * each with its number of deaths, in non-decreasing order, and no municipality left
   * out has fewer deaths than one shown.
   */
  lemma LeastMortalityCitiesSpec(deaths: seq<Death>, div: seq<Division>, topN: int)
    ensures var keys := TownKeys(deaths, div);
      var r := LeastMortalityCities(deaths, div, topN);
      && Distinct(r)
      && (forall i :: 0 <= i < |r| ==> r[i].1 == Occ(keys, r[i].0) >= 1)
      && (forall i, j :: 0 <= i < j < |r| ==> r[i].1 <= r[j].1)
      && (0 <= topN ==> |r| == if topN < |GroupSize(keys)| then topN else |GroupSize(keys)|)
      && (forall i, t :: 0 <= i < |r| && t in Present(keys) && t !in KeySet(r) ==> r[i].1 <= Occ(keys, t))
  {
    TopTowns(TownKeys(deaths, div), ByCountAsc, topN);
  }
}
