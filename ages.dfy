/**
 * `conteo_muertes_por_rango_edad`: the age column of the caller's table is
 * coerced to numbers in place, each numeric age is put in a five-year band
 * ("0-4", "5-9", ..., "80-84", "85+"), the bands are counted and ordered by
 * their lower bound, "85+" last.
 */
module Ages {
  import opened Options
  import opened Text
  import opened Tables
  import opened Grouping
  import opened Ranking

  /** `str(n)` for any integer. */
  function IntToString(n: int): (r: string)
    ensures 0 <= n ==> r == NatToString(n)
    ensures n < 0 ==> r == "-" + NatToString(-n)
  {
    if n < 0 then "-" + NatToString(-n) else NatToString(n)
  }

  /**
   * `asignar_rango_edad(edad)`: "85+" from 85 on, otherwise "inicio-fin" with
   * inicio = (edad // 5) * 5 (floor division) and fin = inicio + 4.
   */
  function AgeBand(age: int): string {
    if age >= 85 then "85+"
    else
      var lo := (age / 5) * 5;
      IntToString(lo) + "-" + IntToString(lo + 4)
  }

  /** The text before the first occurrence of `c`: `s.split(c)[0]`. */
  function Before(s: string, c: char): (r: string)
    ensures |r| <= |s| && r == s[..|r|] && c !in r
    ensures |r| < |s| ==> s[|r|] == c
  {
    if s == [] then []
    else if s[0] == c then []
    else [s[0]] + Before(s[1..], c)
  }

  lemma {:induction false} BeforeConcat(p: string, c: char, q: string)
    requires c !in p
    ensures Before(p + [c] + q, c) == p
  {
    if p != [] {
      assert (p + [c] + q)[1..] == p[1..] + [c] + q;
      BeforeConcat(p[1..], c, q);
    }
  }

  /**
   * `ordenar_rangos(rango)`: 999 for "85+", otherwise `int` of the text before
   * the first '-'; `None` where `int` raises (an empty prefix).
   */
  function BandOrder(band: string): Option<int> {
    if band == "85+" then Some(999)
    else
      match ParseNat(Before(band, '-'))
      case Some(v) => Some(v)
      case None => None
  }

  /** The digits of a number hold no '-'. */
  lemma NoDash(n: nat)
    ensures '-' !in NatToString(n)
  {
    var digits := NatToString(n);
    forall k | 0 <= k < |digits| ensures digits[k] != '-' {
      assert IsDigit(digits[k]);
    }
  }

  /** A non-negative age below 85 falls in the band "lo-(lo+4)", whose order is lo. */
  lemma BandOrderOfAge(age: int)
    requires 0 <= age < 85
    ensures var lo := (age / 5) * 5;
      && AgeBand(age) == NatToString(lo) + "-" + NatToString(lo + 4)
      && BandOrder(AgeBand(age)) == Some(lo)
  {
    var lo := (age / 5) * 5;
    var digits := NatToString(lo);
    var band := AgeBand(age);
    NoDash(lo);
    assert band == digits + ['-'] + NatToString(lo + 4);
    BeforeConcat(digits, '-', NatToString(lo + 4));
    ParseNatToString(lo);
    assert band != "85+" by {
      if |digits| == 1 { assert band[1] == '-'; } else { assert band[2] == '-'; }
    }
  }

  /** A negative age gives a band starting with '-', on which `int` raises. */
  lemma BandOrderOfNegative(age: int)
    requires age < 0
    ensures BandOrder(AgeBand(age)) == None
  {
    var lo := (age / 5) * 5;
    var band := AgeBand(age);
    assert IntToString(lo)[0] == '-';
    assert band[0] == '-';
    assert Before(band, '-') == [];
  }

  /**
   * A band and its order are inverse: a non-negative age below 85 falls in the band
   * "lo-(lo+4)" whose order is lo, a multiple of five with lo <= age <= lo + 4; from 85
   * on the band is "85+" with order 999; a negative age gives a band whose order raises.
   */
  lemma AgeBandSpec(age: int)
    ensures age >= 85 ==> AgeBand(age) == "85+" && BandOrder(AgeBand(age)) == Some(999)
    ensures 0 <= age < 85 ==>
      && BandOrder(AgeBand(age)).Some?
      && var lo := BandOrder(AgeBand(age)).value;
      && lo % 5 == 0 && lo <= age <= lo + 4 && lo <= 80
      && AgeBand(age) == NatToString(lo) + "-" + NatToString(lo + 4)
    ensures age < 0 ==> BandOrder(AgeBand(age)) == None
  {
    if 0 <= age < 85 {
      BandOrderOfAge(age);
      FloorFive(age);
    } else if age < 0 {
      BandOrderOfNegative(age);
    }
  }

  /** `(age // 5) * 5` is the multiple of five at or just below the age. */
  lemma FloorFive(age: int)
    ensures var lo := (age / 5) * 5;
      lo % 5 == 0 && lo <= age <= lo + 4 && (age < 85 ==> lo <= 80)
  {
  }

  /** The bands of some ages, as `asignar_rango_edad` writes them. */
  lemma AgeBandExamples()
    ensures AgeBand(0) == "0-4" && AgeBand(4) == "0-4" && AgeBand(5) == "5-9"
    ensures AgeBand(37) == "35-39" && AgeBand(84) == "80-84"
    ensures AgeBand(85) == "85+" && AgeBand(120) == "85+"
    ensures AgeBand(-1) == "-5--1"
  {
    SmallBandExamples();
    LargeBandExamples();
    NegativeBandExample();
  }

  /** The examples with a one-digit lower bound. */
  lemma SmallBandExamples()
    ensures AgeBand(0) == "0-4" && AgeBand(4) == "0-4" && AgeBand(5) == "5-9"
  {
    OneDigitBand(0, 0);
    OneDigitBand(4, 0);
    OneDigitBand(5, 5);
  }

  /** The examples with a two-digit lower bound. */
  lemma LargeBandExamples()
    ensures AgeBand(37) == "35-39" && AgeBand(84) == "80-84"
  {
    TwoDigitBand(37, 35);
    TwoDigitBand(84, 80);
  }

  /** A negative age, on which `ordenar_rangos` later raises. */
  lemma NegativeBandExample()
    ensures AgeBand(-1) == "-5--1"
  {
    assert IntToString(-5) == "-5" && IntToString(-1) == "-1";
  }

  /** The band of a one-digit age is written with single digits. */
  lemma OneDigitBand(age: int, lo: nat)
    requires 0 <= age < 10 && lo == (age / 5) * 5
    ensures AgeBand(age) == [DigitChar(lo), '-', DigitChar(lo + 4)]
  {
  }

  /** The band of a two-digit age below 85 is written with two-digit bounds. */
  lemma TwoDigitBand(age: int, lo: nat)
    requires 10 <= age < 85 && lo == (age / 5) * 5
    ensures AgeBand(age) == [DigitChar(lo / 10), DigitChar(lo % 10), '-', DigitChar((lo + 4) / 10), DigitChar((lo + 4) % 10)]
  {
    TwoDigits(lo);
    TwoDigits(lo + 4);
  }

  /** `str(n)` of a two-digit number is its tens digit followed by its units digit. */
  lemma TwoDigits(n: nat)
    requires 10 <= n < 100
    ensures NatToString(n) == [DigitChar(n / 10), DigitChar(n % 10)]
  {
  }

  /** Ages in different bands never share an order. */
  lemma BandOrderInjective(a: int, b: int)
    requires 0 <= a && 0 <= b
    ensures BandOrder(AgeBand(a)) == BandOrder(AgeBand(b)) ==> AgeBand(a) == AgeBand(b)
  {
    AgeBandSpec(a);
    AgeBandSpec(b);
  }

  /** The RANGO_EDAD key of each record: the band of its coerced age, NaN dropped. */
  function AgeKeys(deaths: seq<Death>): (k: seq<Option<string>>)
    ensures |k| == |deaths|
    ensures forall i :: 0 <= i < |deaths| ==>
      k[i] == (match ToNumeric(deaths[i].age) case Some(v) => Some(AgeBand(v)) case None => None)
  {
    seq(|deaths|, i requires 0 <= i < |deaths| =>
      match ToNumeric(deaths[i].age) case Some(v) => Some(AgeBand(v)) case None => None)
  }

  /** The ORDEN column, for a table whose every band has an order. */
  function ByBand(row: (string, nat)): (int, int) {
    match BandOrder(row.0)
    case Some(v) => (v, 0)
    case None => (0, 0)
  }

  predicate Ordered(g: seq<(string, nat)>) {
    forall i :: 0 <= i < |g| ==> BandOrder(g[i].0).Some?
  }

  /** The age table, or `None` where `ordenar_rangos` raises on some band. */
  function AgeCounts(deaths: seq<Death>): Option<seq<(string, nat)>> {
    var g := GroupSize(AgeKeys(deaths));
    if Ordered(g) then Some(SortBy(g, ByBand)) else None
  }

  /** The records whose age coerces to a negative number. */
  predicate HasNegativeAge(deaths: seq<Death>) {
    exists i :: 0 <= i < |deaths| && ToNumeric(deaths[i].age).Some? && ToNumeric(deaths[i].age).value < 0
  }

  /** A band that occurs comes from the age of some record. */
  lemma BandOfRecord(deaths: seq<Death>, band: string) returns (i: nat)
    requires band in Present(AgeKeys(deaths))
    ensures i < |deaths| && ToNumeric(deaths[i].age).Some?
    ensures band == AgeBand(ToNumeric(deaths[i].age).value)
  {
    var keys := AgeKeys(deaths);
    OccPresent(keys, band);
    OccWitness(keys, band);
    var k :| 0 <= k < |keys| && keys[k] == Some(band);
    i := k;
  }

  /** `ordenar_rangos` raises exactly when some record has a negative age. */
  lemma AgeCountsFails(deaths: seq<Death>)
    ensures AgeCounts(deaths).None? <==> HasNegativeAge(deaths)
  {
    var keys := AgeKeys(deaths);
    var g := GroupSize(keys);
    if HasNegativeAge(deaths) {
      var i :| 0 <= i < |deaths| && ToNumeric(deaths[i].age).Some? && ToNumeric(deaths[i].age).value < 0;
      var band := AgeBand(ToNumeric(deaths[i].age).value);
      AgeBandSpec(ToNumeric(deaths[i].age).value);
      OccAt(keys, i);
      OccPresent(keys, band);
      assert band in KeySet(g);
      var j :| 0 <= j < |g| && g[j].0 == band;
      assert !Ordered(g);
    } else if !Ordered(g) {
      var j :| 0 <= j < |g| && BandOrder(g[j].0).None?;
      assert g[j].0 in KeySet(g);
      var i := BandOfRecord(deaths, g[j].0);
      AgeBandSpec(ToNumeric(deaths[i].age).value);
      assert false;
    }
  }

  /** Each band of the table has an order of at most 80, or is "85+" with order 999. */
  lemma BandOfTable(deaths: seq<Death>, band: string)
    requires !HasNegativeAge(deaths)
    requires band in Present(AgeKeys(deaths))
    ensures BandOrder(band).Some?
    ensures band == "85+" <==> BandOrder(band).value == 999
    ensures band != "85+" ==> BandOrder(band).value <= 80
  {
    var i := BandOfRecord(deaths, band);
    AgeBandSpec(ToNumeric(deaths[i].age).value);
  }

  /** Two bands of the table with the same order are the same band. */
  lemma BandsOfTableInjective(deaths: seq<Death>, l1: string, l2: string)
    requires !HasNegativeAge(deaths)
    requires l1 in Present(AgeKeys(deaths)) && l2 in Present(AgeKeys(deaths))
    requires BandOrder(l1) == BandOrder(l2)
    ensures l1 == l2
  {
    var i := BandOfRecord(deaths, l1);
    var j := BandOfRecord(deaths, l2);
    BandOrderInjective(ToNumeric(deaths[i].age).value, ToNumeric(deaths[j].age).value);
  }

  /**
   * Without negative ages the table has one row per band that occurs, holding the
   * number of records in that band; the rows add up to the records with a numeric
   * age; the bands run in strictly increasing order of their lower bound, and
   * "85+" comes last.
   */
  lemma AgeCountsSpec(deaths: seq<Death>)
    requires !HasNegativeAge(deaths)
    ensures AgeCounts(deaths).Some?
    ensures var keys := AgeKeys(deaths);
      var r := AgeCounts(deaths).value;
      && Distinct(r)
      && Tallies(r, keys)
      && KeySet(r) == Present(keys)
      && Total(r) == NonNull(keys)
      && (forall i :: 0 <= i < |r| ==> BandOrder(r[i].0).Some?)
      && (forall i, j :: 0 <= i < j < |r| ==> BandOrder(r[i].0).value < BandOrder(r[j].0).value)
      && (forall i :: 0 <= i < |r| && r[i].0 == "85+" ==> i == |r| - 1)
  {
    var keys := AgeKeys(deaths);
    var g := GroupSize(keys);
    AgeCountsFails(deaths);
    var r := AgeCounts(deaths).value;
    assert r == SortBy(g, ByBand);
    TalliesSub(g, r, keys);
    forall i | 0 <= i < |r| ensures BandOrder(r[i].0).Some? {
      assert r[i].0 in KeySet(r);
      BandOfTable(deaths, r[i].0);
    }
    forall i, j | 0 <= i < j < |r| ensures BandOrder(r[i].0).value < BandOrder(r[j].0).value {
      assert r[i].0 in KeySet(r) && r[j].0 in KeySet(r);
      assert LexLe(ByBand(r[i]), ByBand(r[j]));
      if BandOrder(r[i].0) == BandOrder(r[j].0) {
        BandsOfTableInjective(deaths, r[i].0, r[j].0);
      }
    }
    forall i | 0 <= i < |r| && r[i].0 == "85+" ensures i == |r| - 1 {
      if i < |r| - 1 {
        assert r[i + 1].0 in KeySet(r);
        BandOfTable(deaths, r[i + 1].0);
      }
    }
  }

  /** The records after `df[columna] = pd.to_numeric(df[columna], errors='coerce')`. */
  function CoercedAges(deaths: seq<Death>): (r: seq<Death>)
    ensures |r| == |deaths|
    ensures forall i :: 0 <= i < |deaths| ==> r[i] == deaths[i].(age := Coerced(deaths[i].age))
  {
    seq(|deaths|, i requires 0 <= i < |deaths| => deaths[i].(age := Coerced(deaths[i].age)))
  }

  /** Coercing the age column first does not change the table. */
  lemma AgeCountsCoerced(deaths: seq<Death>)
    ensures AgeCounts(CoercedAges(deaths)) == AgeCounts(deaths)
  {
    assert AgeKeys(CoercedAges(deaths)) == AgeKeys(deaths);
  }

  /**
   * `conteo_muertes_por_rango_edad(df)`: overwrites the caller's age column with its
   * numeric coercion, every other column untouched, then returns the age table
   * (`None` where it raises; the column is coerced either way).
   */
  method CountByAgeBand(a: array<Death>) returns (rows: Option<seq<(string, nat)>>)
    modifies a
    ensures a[..] == CoercedAges(old(a[..]))
    ensures rows == AgeCounts(old(a[..]))
  {
    ghost var before := a[..];
    var i := 0;
    while i < a.Length
      invariant 0 <= i <= a.Length
      invariant forall k :: 0 <= k < i ==> a[k] == before[k].(age := Coerced(before[k].age))
      invariant forall k :: i <= k < a.Length ==> a[k] == before[k]
    {
      a[i] := a[i].(age := Coerced(a[i].age));
      i := i + 1;
    }
    assert a[..] == CoercedAges(before);
    rows := AgeCounts(a[..]);
    AgeCountsCoerced(before);
  }
}
