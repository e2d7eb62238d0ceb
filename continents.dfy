/** The approximate country-to-continent classification of the continent chart. */
module Continents {
  import opened Wrappers

  const Other := "Other"

  /** The fixed lookup table: eleven countries, five continents. */
  const ContinentMap: map<string, string> := map[
    "United States" := "North America",
    "Canada" := "North America",
    "Mexico" := "North America",
    "India" := "Asia",
    "China" := "Asia",
    "Japan" := "Asia",
    "United Kingdom" := "Europe",
    "Germany" := "Europe",
    "France" := "Europe",
    "Australia" := "Oceania",
    "Brazil" := "South America"
  ]

  /** Every label the classification can produce. */
  const ContinentNames: set<string> := {"North America", "Asia", "Europe", "Oceania", "South America", Other}

  /**
   * `Series.map(continent_map).fillna("Other")` on one cell: the table's continent for a country
   * that is exactly one of its keys, "Other" for any other country and for a missing cell.
   */
  function ContinentOf(country: Option<string>): (continent: string)
    ensures continent in ContinentNames
    ensures continent == Other <==> country.None? || country.value !in ContinentMap
    ensures continent != Other ==> ContinentMap[country.value] == continent
  {
    if country.Some? && country.value in ContinentMap then ContinentMap[country.value] else Other
  }

  /** Lookup is exact: a spelling or casing that is not literally a key falls into "Other". */
  lemma {:induction false} OnlyExactKeysAreMapped(country: string)
    requires ContinentOf(Some(country)) != Other
    ensures country in {"United States", "Canada", "Mexico", "India", "China", "Japan",
                        "United Kingdom", "Germany", "France", "Australia", "Brazil"}
  {
    assert ContinentMap.Keys == {"United States", "Canada", "Mexico", "India", "China", "Japan",
                                 "United Kingdom", "Germany", "France", "Australia", "Brazil"};
  }
}
