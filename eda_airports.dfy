/**
 * The analysis script: clean the loaded table (placeholders for missing ICAO codes and time
 * zones, a derived country column), then build the overview metrics and the top-10 country
 * and time-zone tables that the charts and the report show.
 */
module EdaAirports {
  import opened Wrappers
  import opened Frequency
  import opened Airports
  import Text

  /** How many lines the top tables keep (`head(10)`). */
  const TopN: nat := 10

  /** The overview table: the metrics "Rows" and "Columns" (`df.shape`). */
  datatype Summary = Summary(rows: nat, columns: nat)

  datatype Report = Report(summary: Summary, topCountries: seq<Entry>, topTimezones: seq<Entry>)

  /**
   * The cleaning step: placeholders for missing ICAO codes and time zones, then the derived
   * country column. The placeholders are written before the country is derived, so they are in
   * place even when a missing location stops the script (`ok` false).
   */
  method Clean(f: Frame) returns (ok: bool)
    requires f.Valid()
    modifies f`hasCountry, f`hasContinent, f.rows
    ensures f.Valid()
    ensures forall i :: 0 <= i < f.rows.Length ==>
              && f.rows[i].icao == Some(FillNa(old(f.rows[i].icao), NotAvailable))
              && f.rows[i].time == Some(FillNa(old(f.rows[i].time), Unknown))
              && f.rows[i].location == old(f.rows[i].location)
              && f.rows[i].continent == old(f.rows[i].continent)
              && f.rows[i].others == old(f.rows[i].others)
    ensures f.hasContinent == old(f.hasContinent)
    ensures ok <==> forall i :: 0 <= i < f.rows.Length ==> old(f.rows[i].location).Some?
    ensures !ok ==> f.hasCountry == old(f.hasCountry)
                    && forall i :: 0 <= i < f.rows.Length ==> f.rows[i].country == old(f.rows[i].country)
    ensures ok ==> f.hasCountry && forall i :: 0 <= i < f.rows.Length ==>
              f.rows[i].country == Some(Text.ExtractCountry(f.rows[i].location.value))
  {
    f.SetColumn(Icao, FillNaColumn(f.Values(Icao), NotAvailable));
    f.SetColumn(Time, FillNaColumn(f.Values(Time), Unknown));
    var countries := ApplyExtractCountry(f.Values(Location));
    if countries.None? {
      return false;
    }
    f.SetColumn(Country, countries.value);
    ok := true;
  }

  /** The overview metrics and the top-10 country and time-zone tables (also the data of the two bar charts). */
  method Summarize(f: Frame) returns (report: Report)
    requires f.Valid() && f.hasCountry
    ensures report.summary.rows == f.rows.Length && report.summary.columns == f.ColumnCount()
    ensures IsTopTable(f.Values(Country), TopN, report.topCountries)
    ensures IsTopTable(f.Values(Time), TopN, report.topTimezones)
  {
    var summary := Summary(f.rows.Length, f.ColumnCount());
    var topCountries := Top(f.Values(Country), TopN);
    var topTimezones := Top(f.Values(Time), TopN);
    report := Report(summary, topCountries, topTimezones);
  }

  /** The script up to the report: clean, then summarize. */
  method Run(f: Frame) returns (r: Result<Report, Error>)
    requires f.Valid()
    modifies f`hasCountry, f`hasContinent, f.rows
    ensures f.Valid()
    ensures forall i :: 0 <= i < f.rows.Length ==>
              && f.rows[i].icao == Some(FillNa(old(f.rows[i].icao), NotAvailable))
              && f.rows[i].time == Some(FillNa(old(f.rows[i].time), Unknown))
              && f.rows[i].location == old(f.rows[i].location)
              && f.rows[i].continent == old(f.rows[i].continent)
              && f.rows[i].others == old(f.rows[i].others)
    ensures f.hasContinent == old(f.hasContinent)
    ensures r.Ok? <==> forall i :: 0 <= i < f.rows.Length ==> old(f.rows[i].location).Some?
    ensures r.Err? ==> f.hasCountry == old(f.hasCountry)
                       && forall i :: 0 <= i < f.rows.Length ==> f.rows[i].country == old(f.rows[i].country)
    ensures r.Ok? ==> f.hasCountry && forall i :: 0 <= i < f.rows.Length ==>
              f.rows[i].country == Some(Text.ExtractCountry(f.rows[i].location.value))
    ensures r.Ok? ==> r.value.summary == Summary(f.rows.Length, old(f.ColumnCount()) + if old(f.hasCountry) then 0 else 1)
    ensures r.Ok? ==> IsTopTable(f.Values(Country), TopN, r.value.topCountries)
    ensures r.Ok? ==> IsTopTable(f.Values(Time), TopN, r.value.topTimezones)
    ensures r.Ok? ==> forall t :: IsValueCounts(f.Values(Time), t) ==> SumCounts(t) == f.rows.Length
  {
    var ok := Clean(f);
    if !ok {
      return Err(LocationNotText);
    }
    var report := Summarize(f);
    forall t | IsValueCounts(f.Values(Time), t) ensures SumCounts(t) == f.rows.Length {
      CountsCoverEveryRow(f.Values(Time), t);
    }
    r := Ok(report);
  }
}
