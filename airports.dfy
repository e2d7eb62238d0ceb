/**
 * The airports DataFrame: one row per airport, the columns the scripts read or write by
 * name (icao, location, time, country, continent), and any number of other columns that
 * they carry along untouched. Column assignments rewrite cells in place; the row count
 * never changes.
 */
module Airports {
  import opened Wrappers
  import Text
  import Continents

  /** The columns the scripts name. */
  datatype Column = Icao | Location | Time | Country | Continent

  /** One airport. `others` holds the cells of the columns the scripts never name. */
  datatype Row = Row(icao: Option<string>, location: Option<string>, time: Option<string>,
                     country: Option<string>, continent: Option<string>,
                     others: seq<Option<string>>)
  {
    function Get(c: Column): Option<string> {
      match c
      case Icao => icao
      case Location => location
      case Time => time
      case Country => country
      case Continent => continent
    }

    /** The row with the cell of column `c` replaced by `v`; every other cell is kept. */
    function With(c: Column, v: Option<string>): (r: Row)
      ensures r.Get(c) == v
      ensures forall d :: d != c ==> r.Get(d) == Get(d)
      ensures r.others == others
    {
      match c
      case Icao => this.(icao := v)
      case Location => this.(location := v)
      case Time => this.(time := v)
      case Country => this.(country := v)
      case Continent => this.(continent := v)
    }
  }

  const NotAvailable := "Not Available"
  const Unknown := "Unknown"

  /** `fillna(placeholder)` on one cell. */
  function FillNa(cell: Option<string>, placeholder: string): string {
    match cell
    case Some(s) => s
    case None => placeholder
  }

  /** `col.fillna(placeholder)`: no cell is missing afterwards; present cells keep their value. */
  function FillNaColumn(col: seq<Option<string>>, placeholder: string): (filled: seq<Option<string>>)
    ensures |filled| == |col|
    ensures forall i :: 0 <= i < |col| ==> filled[i].Some?
    ensures forall i :: 0 <= i < |col| ==> if col[i].Some? then filled[i] == col[i] else filled[i] == Some(placeholder)
  {
    seq(|col|, i requires 0 <= i < |col| => Some(FillNa(col[i], placeholder)))
  }

  /** `x.split(',')` on a missing location raises `AttributeError`: the script stops there. */
  datatype Error = LocationNotText

  /**
   * `locations.apply(lambda x: x.split(",")[-1].strip())`: the country of every location, or
   * nothing when some location is missing (the lambda raises on NaN, which has no `split`).
   */
  function ApplyExtractCountry(locations: seq<Option<string>>): (countries: Option<seq<Option<string>>>)
    ensures countries.Some? <==> forall i :: 0 <= i < |locations| ==> locations[i].Some?
    ensures countries.Some? ==>
              |countries.value| == |locations|
              && forall i :: 0 <= i < |locations| ==> countries.value[i] == Some(Text.ExtractCountry(locations[i].value))
  {
    if forall i :: 0 <= i < |locations| ==> locations[i].Some? then
      Some(seq(|locations|, i requires 0 <= i < |locations| && locations[i].Some? =>
                              Some(Text.ExtractCountry(locations[i].value))))
    else None
  }

  /**
   * `countries.map(continent_map).fillna("Other")`: every cell gets a continent label, the one
   * the table gives its country or "Other".
   */
  function MapContinent(countries: seq<Option<string>>): (continents: seq<Option<string>>)
    ensures |continents| == |countries|
    ensures forall i :: 0 <= i < |countries| ==> continents[i] == Some(Continents.ContinentOf(countries[i]))
  {
    seq(|countries|, i requires 0 <= i < |countries| => Some(Continents.ContinentOf(countries[i])))
  }

  /** The columns the scripts name. */
  const AllColumns: set<Column> := {Icao, Location, Time, Country, Continent}

  class Frame {
    const rows: array<Row>
    /** Number of columns besides icao, location, time, country and continent. */
    const otherColumns: nat
    /** Whether the table has a `country` column (`"country" in df.columns`). */
    var hasCountry: bool
    /** Whether the table has a `continent` column. */
    var hasContinent: bool

    /** Each row has a cell for every other column; a column the table lacks reads as missing everywhere. */
    ghost predicate Valid()
      reads this, rows
    {
      && (forall i :: 0 <= i < rows.Length ==> |rows[i].others| == otherColumns)
      && (!hasCountry ==> forall i :: 0 <= i < rows.Length ==> rows[i].country.None?)
      && (!hasContinent ==> forall i :: 0 <= i < rows.Length ==> rows[i].continent.None?)
    }

    /** Whether column `c` is one of the table's columns (`c in df.columns`); icao, location and time always are. */
    predicate HasColumn(c: Column)
      reads this
    {
      match c
      case Country => hasCountry
      case Continent => hasContinent
      case _ => true
    }

    /** `df.shape[1]`: the named columns the table has, plus the other columns. */
    function ColumnCount(): (n: nat)
      reads this
      ensures n == otherColumns + |set c | c in AllColumns && HasColumn(c)|
      ensures 3 + otherColumns <= n <= |AllColumns| + otherColumns
    {
      var present := set c | c in AllColumns && HasColumn(c);
      if hasCountry && hasContinent then
        assert present == AllColumns;
        5 + otherColumns
      else if hasCountry then
        assert present == {Icao, Location, Time, Country};
        4 + otherColumns
      else if hasContinent then
        assert present == {Icao, Location, Time, Continent};
        4 + otherColumns
      else
        assert present == {Icao, Location, Time};
        3 + otherColumns
    }

    /** `df[c]` as a sequence of cells, one per row. */
    function Values(c: Column): (col: seq<Option<string>>)
      reads rows
      ensures |col| == rows.Length
      ensures forall i :: 0 <= i < rows.Length ==> col[i] == rows[i].Get(c)
    {
      seq(rows.Length, i reads rows requires 0 <= i < rows.Length => rows[i].Get(c))
    }

    /** The table `read_csv` produced: its rows, its other columns, and which derived columns it already has. */
    constructor Load(table: seq<Row>, otherColumns: nat, hasCountry: bool, hasContinent: bool)
      requires forall r :: r in table ==> |r.others| == otherColumns
      requires !hasCountry ==> forall r :: r in table ==> r.country.None?
      requires !hasContinent ==> forall r :: r in table ==> r.continent.None?
      ensures Valid() && fresh(rows)
      ensures rows[..] == table && this.otherColumns == otherColumns
      ensures this.hasCountry == hasCountry && this.hasContinent == hasContinent
    {
      rows := new Row[|table|](i requires 0 <= i < |table| => table[i]);
      this.otherColumns := otherColumns;
      this.hasCountry := hasCountry;
      this.hasContinent := hasContinent;
    }

    /**
     * `df[c] = cells`: column `c` of row `i` becomes `cells[i]`, every other cell stays, and the
     * column exists afterwards. The row count does not change.
     */
    method SetColumn(c: Column, cells: seq<Option<string>>)
      requires Valid() && |cells| == rows.Length
      modifies this`hasCountry, this`hasContinent, rows
      ensures Valid()
      ensures forall i :: 0 <= i < rows.Length ==> rows[i] == old(rows[i]).With(c, cells[i])
      ensures Values(c) == cells
      ensures forall d :: d != c ==> Values(d) == old(Values(d))
      ensures hasCountry == (old(hasCountry) || c == Country)
      ensures hasContinent == (old(hasContinent) || c == Continent)
    {
      var i := 0;
      while i < rows.Length
        invariant 0 <= i <= rows.Length
        invariant hasCountry == old(hasCountry) && hasContinent == old(hasContinent)
        invariant forall j :: 0 <= j < i ==> rows[j] == old(rows[j]).With(c, cells[j])
        invariant forall j :: i <= j < rows.Length ==> rows[j] == old(rows[j])
      {
        rows[i] := rows[i].With(c, cells[i]);
        i := i + 1;
      }
      assert Values(c) == cells;
      forall d | d != c ensures Values(d) == old(Values(d)) {
        assert forall j :: 0 <= j < rows.Length ==> Values(d)[j] == old(Values(d))[j];
      }
      if c == Country {
        hasCountry := true;
      } else if c == Continent {
        hasContinent := true;
      }
    }
  }
}
