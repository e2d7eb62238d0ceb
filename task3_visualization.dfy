/**
 * The chart script, run on the cleaned table: make sure a country column exists, take the
 * top-10 countries and time zones, classify every country into a continent and count the
 * continents for the pie chart.
 */
module Task3Visualization {
  import opened Wrappers
  import opened Frequency
  import opened Airports
  import Text
  import Continents

  const TopN: nat := 10

  /** The data behind the three charts. */
  datatype Charts = Charts(topCountries: seq<Entry>, topTimezones: seq<Entry>, continentCounts: seq<Entry>)

  /** `if "country" not in df.columns:` derive it; a country column already loaded is left as it is. */
  method EnsureCountry(f: Frame) returns (ok: bool)
    requires f.Valid()
    modifies f`hasCountry, f`hasContinent, f.rows
    ensures f.Valid() && f.hasContinent == old(f.hasContinent)
    ensures ok <==> old(f.hasCountry) || forall i :: 0 <= i < f.rows.Length ==> old(f.rows[i].location).Some?
    ensures ok ==> f.hasCountry
    ensures !ok ==> unchanged(f, f.rows)
    ensures forall i :: 0 <= i < f.rows.Length ==> f.rows[i] == old(f.rows[i]).(country := f.rows[i].country)
    ensures old(f.hasCountry) || !ok ==> forall i :: 0 <= i < f.rows.Length ==> f.rows[i].country == old(f.rows[i].country)
    ensures !old(f.hasCountry) && ok ==> forall i :: 0 <= i < f.rows.Length ==>
              f.rows[i].country == Some(Text.ExtractCountry(f.rows[i].location.value))
  {
    if f.hasCountry {
      return true;
    }
    var countries := ApplyExtractCountry(f.Values(Location));
    if countries.None? {
      return false;
    }
    f.SetColumn(Country, countries.value);
    ok := true;
  }

  /** `df["continent"] = ...` followed by `df["continent"].value_counts()`. */
  method ClassifyContinents(f: Frame) returns (counts: seq<Entry>)
    requires f.Valid() && f.hasCountry
    modifies f`hasCountry, f`hasContinent, f.rows
    ensures f.Valid() && f.hasCountry && f.hasContinent
    ensures forall i :: 0 <= i < f.rows.Length ==>
              f.rows[i] == old(f.rows[i]).(continent := Some(Continents.ContinentOf(old(f.rows[i].country))))
    ensures f.Values(Country) == old(f.Values(Country)) && f.Values(Time) == old(f.Values(Time))
    ensures IsValueCounts(f.Values(Continent), counts)
    ensures SumCounts(counts) == f.rows.Length
    ensures forall e :: e in counts ==> e.value in Continents.ContinentNames
  {
    var countries := f.Values(Country);
    var continents := MapContinent(countries);
    f.SetColumn(Continent, continents);
    forall i | 0 <= i < f.rows.Length
      ensures f.rows[i] == old(f.rows[i]).(continent := Some(Continents.ContinentOf(old(f.rows[i].country))))
    {
      assert continents[i] == Some(Continents.ContinentOf(countries[i]));
    }
    counts := ValueCounts(continents);
    ContinentCountsPartition(countries, counts);
  }

  /**
   * Every row lands in exactly one continent bucket: the continent counts add up to the number
   * of rows, and every bucket is one of the six labels.
   */
  lemma ContinentCountsPartition(countries: seq<Option<string>>, t: seq<Entry>)
    requires IsValueCounts(MapContinent(countries), t)
    ensures SumCounts(t) == |countries|
    ensures forall e :: e in t ==> e.value in Continents.ContinentNames
  {
    var col := MapContinent(countries);
    CountsCoverEveryRow(col, t);
    ListedValuesOccur(col, t);
    forall e | e in t ensures e.value in Continents.ContinentNames {
      var i :| 0 <= i < |col| && col[i] == Some(e.value);
    }
  }

  /** The whole script, on the table read back from the cleaned file. */
  method Run(f: Frame) returns (r: Result<Charts, Error>)
    requires f.Valid()
    modifies f`hasCountry, f`hasContinent, f.rows
    ensures f.Valid()
    ensures r.Ok? <==> old(f.hasCountry) || forall i :: 0 <= i < f.rows.Length ==> old(f.rows[i].location).Some?
    ensures r.Err? ==> unchanged(f, f.rows)
    ensures r.Ok? ==> f.hasCountry && f.hasContinent
    ensures r.Ok? ==> forall i :: 0 <= i < f.rows.Length ==>
              && f.rows[i].icao == old(f.rows[i].icao)
              && f.rows[i].location == old(f.rows[i].location)
              && f.rows[i].time == old(f.rows[i].time)
              && f.rows[i].others == old(f.rows[i].others)
              && f.rows[i].continent == Some(Continents.ContinentOf(f.rows[i].country))
    ensures r.Ok? && old(f.hasCountry) ==> forall i :: 0 <= i < f.rows.Length ==> f.rows[i].country == old(f.rows[i].country)
    ensures r.Ok? && !old(f.hasCountry) ==> forall i :: 0 <= i < f.rows.Length ==>
              f.rows[i].country == Some(Text.ExtractCountry(f.rows[i].location.value))
    ensures r.Ok? ==> IsTopTable(f.Values(Country), TopN, r.value.topCountries)
    ensures r.Ok? ==> IsTopTable(f.Values(Time), TopN, r.value.topTimezones)
    ensures r.Ok? ==> IsValueCounts(f.Values(Continent), r.value.continentCounts)
    ensures r.Ok? ==> SumCounts(r.value.continentCounts) == f.rows.Length
    ensures r.Ok? ==> forall e :: e in r.value.continentCounts ==> e.value in Continents.ContinentNames
  {
    var ok := EnsureCountry(f);
    if !ok {
      return Err(LocationNotText);
    }
    var topCountries := Top(f.Values(Country), TopN);
    var topTimezones := Top(f.Values(Time), TopN);
    var continentCounts := ClassifyContinents(f);
    r := Ok(Charts(topCountries, topTimezones, continentCounts));
  }
}
