/**
 * `agrupar_muertes_por_mes`: deaths per month, always twelve rows for the
 * months 1..12 with zero where a month has no records.
 */
module Months {
  import opened Options
  import opened Text
  import opened Tables
  import opened Grouping

  /** `pd.to_numeric(muertes['MES'], errors='coerce')` on a copy of the records. */
  function MonthKeys(deaths: seq<Death>): (k: seq<Option<int>>)
    ensures |k| == |deaths| && forall i :: 0 <= i < |deaths| ==> k[i] == ToNumeric(deaths[i].month)
  {
    seq(|deaths|, i requires 0 <= i < |deaths| => ToNumeric(deaths[i].month))
  }

  /** `reindex(..., fill_value=0)` for one month: the group's count, or 0 without a group. */
  function CountOrZero(g: seq<(int, nat)>, m: int): nat {
    var i := Find(g, m);
    if i >= 0 then g[i].1 else 0
  }

  /** A row of the monthly view: MES, MES_NOMBRE and TOTAL_MUERTES. */
  datatype MonthRow = MonthRow(month: int, name: string, total: nat)

  /**
   * The monthly view. `monthName` stands for `unidecode(calendar.month_name[m])`;
   * the view upper-cases it.
   */
  function MonthlyDeaths(deaths: seq<Death>, monthName: int -> string): seq<MonthRow> {
    var g := GroupSize(MonthKeys(deaths));
    seq(12, i requires 0 <= i < 12 => MonthRow(i + 1, Upper(monthName(i + 1)), CountOrZero(g, i + 1)))
  }

  /** Records whose month coerces to a number in 1..12. */
  function ValidMonths(keys: seq<Option<int>>): nat {
    if keys == [] then 0
    else
      var last := keys[|keys| - 1];
      ValidMonths(keys[..|keys| - 1]) + (if last.Some? && 1 <= last.value <= 12 then 1 else 0)
  }

  /** Records whose month is one of lo..hi. */
  function SumOcc(keys: seq<Option<int>>, lo: int, hi: int): nat
    decreases hi - lo
  {
    if lo > hi then 0 else Occ(keys, lo) + SumOcc(keys, lo + 1, hi)
  }

  /** The (MES, TOTAL_MUERTES) columns of the monthly view, so that `Total` sums them. */
  function MonthCounts(rows: seq<MonthRow>): (c: seq<(int, nat)>)
    ensures |c| == |rows| && forall i :: 0 <= i < |rows| ==> c[i] == (rows[i].month, rows[i].total)
  {
    seq(|rows|, i requires 0 <= i < |rows| => (rows[i].month, rows[i].total))
  }

  lemma {:induction false} SumOccStep(keys: seq<Option<int>>, lo: int, hi: int)
    requires keys != []
    ensures var last := keys[|keys| - 1];
      SumOcc(keys, lo, hi) == SumOcc(keys[..|keys| - 1], lo, hi) +
        (if last.Some? && lo <= last.value <= hi then 1 else 0)
    decreases hi - lo
  {
    if lo <= hi {
      SumOccStep(keys, lo + 1, hi);
    }
  }

  lemma {:induction false} SumOccValid(keys: seq<Option<int>>)
    ensures SumOcc(keys, 1, 12) == ValidMonths(keys)
  {
    if keys != [] {
      SumOccValid(keys[..|keys| - 1]);
      SumOccStep(keys, 1, 12);
    }
  }

  lemma {:induction false} TotalsSuffix(c: seq<(int, nat)>, keys: seq<Option<int>>, k: nat)
    requires k <= |c| == 12
    requires forall i :: 0 <= i < 12 ==> c[i].1 == Occ(keys, i + 1)
    ensures Total(c[k..]) == SumOcc(keys, k + 1, 12)
    decreases 12 - k
  {
    if k < 12 {
      TotalsSuffix(c, keys, k + 1);
      assert c[k..][1..] == c[k + 1..];
    }
  }

  /**
   * Twelve rows for the months 1..12 in order; each month's total is the number of
   * records whose month coerces to it (zero when there are none); the totals add up
   * to the records whose month is a number in 1..12, so every other record is dropped.
   */
  lemma MonthlyDeathsSpec(deaths: seq<Death>, monthName: int -> string)
    ensures var r := MonthlyDeaths(deaths, monthName);
      && |r| == 12
      && (forall i :: 0 <= i < 12 ==>
            && r[i].month == i + 1
            && r[i].name == Upper(monthName(i + 1))
            && r[i].total == Occ(MonthKeys(deaths), i + 1))
      && Total(MonthCounts(r)) == ValidMonths(MonthKeys(deaths))
  {
    var keys := MonthKeys(deaths);
    var g := GroupSize(keys);
    var r := MonthlyDeaths(deaths, monthName);
    forall i | 0 <= i < 12 ensures r[i].total == Occ(keys, i + 1) {
      OccPresent(keys, i + 1);
      var j := Find(g, i + 1);
      assert r[i].total == CountOrZero(g, i + 1);
      if j < 0 {
        assert (i + 1) !in KeySet(g);
      } else {
        assert g[j].1 == Occ(keys, g[j].0);
      }
    }
    TotalsSuffix(MonthCounts(r), keys, 0);
    assert MonthCounts(r)[0..] == MonthCounts(r);
    SumOccValid(keys);
  }
}
