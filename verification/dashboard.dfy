/**
 * The five callbacks as one query over the raw table and the widget values,
 * and the properties that tie their outputs together.
 */
module Dashboard {
  import opened Optional
  import opened Seqs
  import opened Order
  import opened Records
  import opened Filtering
  import opened Kpis
  import opened Grouping
  import opened Recent

  function YearKey(r: Record): Option<int>
  {
    Some(r.year)
  }

  function CountryKey(r: Record): Option<string>
  {
    r.country
  }

  /** The rows shown on the map (`update_map`). */
  function MapPoints(rows: seq<RawRow>, p: FilterParams): (points: seq<Record>)
    ensures forall r :: r in points <==> r in Normalize(rows, false) && Passes(r, p)
  {
    Filter(Normalize(rows, false), p)
  }

  /** `update_trend_line`: crashes and fatalities per year, ascending by year. */
  function YearlyTrend(rows: seq<RawRow>, p: FilterParams): (yearly: seq<Group<int>>)
    ensures IsGrouping(yearly, MapPoints(rows, p), YearKey, IntLess)
  {
    IntLessIsStrictTotalOrder();
    GroupByIsGrouping(MapPoints(rows, p), YearKey, IntLess);
    GroupBy(MapPoints(rows, p), YearKey, IntLess)
  }

  /** The country view's rows: its own `dropna` also requires Country/Region. */
  function CountryRows(rows: seq<RawRow>, p: FilterParams): (rs: seq<Record>)
    ensures rs == Keep(MapPoints(rows, p), HasCountry)
  {
    NormalizeWithCountry(rows);
    FilterCommutes(Normalize(rows, false), p, HasCountry);
    Filter(Normalize(rows, true), p)
  }

  /** `update_choropleth`: crashes and fatalities per country, ascending by name. */
  function CountryTotals(rows: seq<RawRow>, p: FilterParams): (countries: seq<Group<string>>)
    ensures IsGrouping(countries, CountryRows(rows, p), CountryKey, StrLess)
  {
    StrLessIsStrictTotalOrder();
    GroupByIsGrouping(CountryRows(rows, p), CountryKey, StrLess);
    GroupBy(CountryRows(rows, p), CountryKey, StrLess)
  }

  /** Everything the dashboard shows for one setting of the widgets. */
  datatype Views = Views(
    points: seq<Record>,
    kpis: Kpis,
    yearly: seq<Group<int>>,
    countries: seq<Group<string>>,
    recent: seq<RecentRow>)

  function Query(rows: seq<RawRow>, p: FilterParams): (v: Views)
    ensures v.kpis.totalCrashes == |v.points|
    ensures GroupFatalities(v.yearly) == v.kpis.totalFatalities
    ensures GroupCrashes(v.yearly) <= v.kpis.totalCrashes
    ensures GroupCrashes(v.countries) <= GroupCrashes(v.yearly)
    ensures |v.recent| <= RecentLimit && |v.recent| <= |v.points|
  {
    var points := MapPoints(rows, p);
    YearlyMatchesKpis(rows, p);
    CountriesWithinKpis(rows, p);
    Views(points, ComputeKpis(points), YearlyTrend(rows, p), CountryTotals(rows, p), RecentCrashes(points))
  }

  /**
   * The trend view accounts for every filtered crash: one entry per distinct
   * year, fatalities summing to the KPI total, and crash counts summing to the
   * rows with an Aircraft, which is the KPI count exactly when none lacks one.
   */
  lemma YearlyMatchesKpis(rows: seq<RawRow>, p: FilterParams)
    ensures GroupFatalities(YearlyTrend(rows, p)) == ComputeKpis(MapPoints(rows, p)).totalFatalities
    ensures GroupCrashes(YearlyTrend(rows, p)) == CountAircraft(MapPoints(rows, p))
    ensures (GroupCrashes(YearlyTrend(rows, p)) == ComputeKpis(MapPoints(rows, p)).totalCrashes)
              <==> (forall r :: r in MapPoints(rows, p) ==> r.aircraft.Some?)
    ensures forall r :: r in MapPoints(rows, p) ==> r.year in Keys(YearlyTrend(rows, p))
  {
    YearlySums(MapPoints(rows, p));
  }

  lemma YearlySums(points: seq<Record>)
    ensures GroupFatalities(GroupBy(points, YearKey, IntLess)) == SumFatalities(points)
    ensures GroupCrashes(GroupBy(points, YearKey, IntLess)) == CountAircraft(points)
    ensures forall r :: r in points ==> r.year in Keys(GroupBy(points, YearKey, IntLess))
  {
    KeepAll(points, r => YearKey(r).Some?);
    IntLessIsStrictTotalOrder();
    GroupByIsGrouping(points, YearKey, IntLess);
    forall r | r in points ensures r.year in Keys(GroupBy(points, YearKey, IntLess)) {
      KeyListed(GroupBy(points, YearKey, IntLess), points, YearKey, IntLess, r);
    }
  }

  /**
   * The country view sees the filtered rows that have a country. Its totals
   * plus those of the rows without one give the KPI totals; its crash count
   * reaches the KPI count exactly when every filtered row has both a country
   * and an Aircraft.
   */
  lemma CountriesWithinKpis(rows: seq<RawRow>, p: FilterParams)
    ensures GroupFatalities(CountryTotals(rows, p)) + SumFatalities(Keep(MapPoints(rows, p), NoCountry))
              == ComputeKpis(MapPoints(rows, p)).totalFatalities
    ensures GroupCrashes(CountryTotals(rows, p)) + CountAircraft(Keep(MapPoints(rows, p), NoCountry))
              == CountAircraft(MapPoints(rows, p))
    ensures (GroupCrashes(CountryTotals(rows, p)) == ComputeKpis(MapPoints(rows, p)).totalCrashes)
              <==> (forall r :: r in MapPoints(rows, p) ==> r.country.Some? && r.aircraft.Some?)
  {
    CountrySums(MapPoints(rows, p));
  }

  /** A row without Country/Region. */
  predicate NoCountry(r: Record)
  {
    r.country.None?
  }

  lemma CountrySums(points: seq<Record>)
    ensures GroupFatalities(GroupBy(Keep(points, HasCountry), CountryKey, StrLess)) + SumFatalities(Keep(points, NoCountry))
              == SumFatalities(points)
    ensures GroupCrashes(GroupBy(Keep(points, HasCountry), CountryKey, StrLess)) + CountAircraft(Keep(points, NoCountry))
              == CountAircraft(points)
    ensures (GroupCrashes(GroupBy(Keep(points, HasCountry), CountryKey, StrLess)) == |points|)
              <==> (forall r :: r in points ==> r.country.Some? && r.aircraft.Some?)
  {
    CountryRowsAreKeyed(points);
    SumPartition(points, HasCountry, NoCountry);
    CountryCrashesReachCount(points);
  }

  /** After the country `dropna`, the groupby's own dropping of missing keys removes nothing. */
  lemma CountryRowsAreKeyed(points: seq<Record>)
    ensures Keyed(Keep(points, HasCountry), CountryKey) == Keep(points, HasCountry)
  {
    var withCountry := Keep(points, HasCountry);
    KeyedByCountry(withCountry);
    KeepAll(withCountry, HasCountry);
  }

  lemma KeyedByCountry(rs: seq<Record>)
    ensures Keyed(rs, CountryKey) == Keep(rs, HasCountry)
  {
    KeepExtensional(rs, r => CountryKey(r).Some?, HasCountry);
  }

  lemma CountryCrashesReachCount(points: seq<Record>)
    ensures (CountAircraft(Keep(points, HasCountry)) == |points|)
              <==> (forall r :: r in points ==> r.country.Some? && r.aircraft.Some?)
  {
    var withCountry := Keep(points, HasCountry);
    if CountAircraft(withCountry) == |points| {
      forall r | r in points ensures r.country.Some? && r.aircraft.Some? {
        if !r.country.Some? {
          KeepShorter(points, HasCountry, r);
        }
        assert r in withCountry;
      }
    } else if forall r :: r in points ==> r.country.Some? && r.aircraft.Some? {
      KeepAll(points, HasCountry);
    }
  }

  lemma {:induction false} KeepShorter(s: seq<Record>, q: Record -> bool, x: Record)
    requires x in s && !q(x)
    ensures |Keep(s, q)| < |s|
    decreases |s|
  {
    if s[0] != x {
      KeepShorter(s[1..], q, x);
    }
  }

  /** With no negative fatality counts the country view never exceeds the KPI total. */
  lemma CountryFatalitiesAtMostKpis(rows: seq<RawRow>, p: FilterParams)
    requires forall r :: r in MapPoints(rows, p) ==> r.fatalities >= 0
    ensures GroupFatalities(CountryTotals(rows, p)) <= ComputeKpis(MapPoints(rows, p)).totalFatalities
    ensures (forall r :: r in MapPoints(rows, p) ==> r.country.Some?) ==>
              GroupFatalities(CountryTotals(rows, p)) == ComputeKpis(MapPoints(rows, p)).totalFatalities
  {
    CountryFatalitiesAtMost(MapPoints(rows, p));
  }

  lemma CountryFatalitiesAtMost(points: seq<Record>)
    requires forall r :: r in points ==> r.fatalities >= 0
    ensures GroupFatalities(GroupBy(Keep(points, HasCountry), CountryKey, StrLess)) <= SumFatalities(points)
    ensures (forall r :: r in points ==> r.country.Some?) ==>
              GroupFatalities(GroupBy(Keep(points, HasCountry), CountryKey, StrLess)) == SumFatalities(points)
  {
    var without := Keep(points, NoCountry);
    CountrySums(points);
    SumNonNegative(without);
    if forall r :: r in points ==> r.country.Some? {
      KeepNone(points, NoCountry);
    }
  }

  /** Filters that exclude every row leave every view at its empty default. */
  lemma EmptySelection(rows: seq<RawRow>, p: FilterParams)
    requires MapPoints(rows, p) == []
    ensures Query(rows, p).kpis == Kpis(0, 0, 0.0, 0)
    ensures Query(rows, p).yearly == [] && Query(rows, p).countries == [] && Query(rows, p).recent == []
  {
    var v := Query(rows, p);
    assert CountryRows(rows, p) == [];
    assert Keyed([], YearKey) == [] && Keyed([], CountryKey) == [];
  }
}
