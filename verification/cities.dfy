/** The fixed table of the six supported cities (`CITY_COORDINATES`), which both
    the TypeScript importer and the legacy JavaScript CLI declare identically. */
module Cities {
  import opened Results
  import opened Text
  import opened Numbers

  /** A coordinate in degrees as written in the table, `whole.frac`. */
  datatype Degrees = Degrees(whole: nat, frac: string) {
    predicate Valid() {
      |frac| > 0 && AllDigits(frac)
    }

    /** The exact value of the literal. */
    function Value(): real
      requires Valid()
    {
      DecimalOf(whole, frac)
    }

    /** `Number.prototype.toString()` of the literal: the literal itself. */
    function Text(): string {
      ShowNat(whole) + "." + frac
    }
  }

  datatype City = City(name: string, latitude: Degrees, longitude: Degrees)

  const Paris := City("Paris", Degrees(48, "85661"), Degrees(2, "351499"))
  const Cologne := City("Cologne", Degrees(50, "938361"), Degrees(6, "959974"))
  const Brussels := City("Brussels", Degrees(50, "846557"), Degrees(4, "351697"))
  const Amsterdam := City("Amsterdam", Degrees(52, "370216"), Degrees(4, "895168"))
  const Hamburg := City("Hamburg", Degrees(53, "550341"), Degrees(10, "000654"))
  const Dusseldorf := City("Dusseldorf", Degrees(51, "225402"), Degrees(6, "776314"))

  const Table: seq<City> := [Paris, Cologne, Brussels, Amsterdam, Hamburg, Dusseldorf]

  /** Every row has a name that fits in one TSV cell and does not start with
      whitespace, and every coordinate is a well-formed positive decimal. */
  predicate WellFormed(c: City) {
    && c.name != "" && !IsWhitespace(c.name[0]) && '\t' !in c.name && '\n' !in c.name
    && c.latitude.Valid() && c.longitude.Valid()
    && c.latitude.whole > 0 && c.longitude.whole > 0
  }

  lemma TableWellFormed()
    ensures forall i :: 0 <= i < |Table| ==> WellFormed(Table[i])
  {
    WestWellFormed();
    EastWellFormed();
  }

  lemma WestWellFormed()
    ensures WellFormed(Paris) && WellFormed(Brussels) && WellFormed(Amsterdam)
  {
  }

  lemma EastWellFormed()
    ensures WellFormed(Cologne) && WellFormed(Hamburg) && WellFormed(Dusseldorf)
  {
  }

  /** Coordinates in the table are never zero, so `parsed || table` always yields a truthy number. */
  lemma PositiveCoordinates(c: City)
    requires WellFormed(c)
    ensures c.latitude.Value() > 0.0 && c.longitude.Value() > 0.0
  {
  }

  /** `CITY_COORDINATES.find((c) => c.name === name)`: exact, case-sensitive match. */
  function Find(name: string): (r: Option<City>)
    ensures r.Some? <==> exists i :: 0 <= i < |Table| && Table[i].name == name
    ensures r.Some? ==> r.value.name == name && r.value in Table && WellFormed(r.value)
  {
    TableWellFormed();
    FindIn(Table, name)
  }

  function FindIn(cities: seq<City>, name: string): (r: Option<City>)
    ensures r.Some? <==> exists i :: 0 <= i < |cities| && cities[i].name == name
    ensures r.Some? ==> r.value.name == name && r.value in cities
  {
    if |cities| == 0 then None
    else if cities[0].name == name then Some(cities[0])
    else
      var r := FindIn(cities[1..], name);
      assert forall i :: 1 <= i < |cities| ==> cities[i] == cities[1..][i - 1];
      r
  }

  /** The six names are distinct, so a name selects exactly one row. */
  lemma NamesDistinct()
    ensures forall i, j :: 0 <= i < j < |Table| ==> Table[i].name != Table[j].name
  {
  }

  /** Looking up any table row's name finds that very row, coordinates included. */
  lemma FindOfTable()
    ensures forall i :: 0 <= i < |Table| ==> Find(Table[i].name) == Some(Table[i])
  {
    NamesDistinct();
    forall i | 0 <= i < |Table|
      ensures FindIn(Table, Table[i].name) == Some(Table[i])
    {
      FindInDistinct(Table, i);
    }
  }

  /** In a list with distinct names, looking up the name of entry `i` finds entry `i`. */
  lemma {:induction false} FindInDistinct(cities: seq<City>, i: nat)
    requires i < |cities|
    requires forall a, b :: 0 <= a < b < |cities| ==> cities[a].name != cities[b].name
    ensures FindIn(cities, cities[i].name) == Some(cities[i])
  {
    if i > 0 {
      assert cities[0].name != cities[i].name;
      assert cities[1..][i - 1] == cities[i];
      FindInDistinct(cities[1..], i - 1);
    }
  }

  lemma ParisCoordinates()
    ensures Find("Paris") == Some(Table[0])
    ensures Table[0].latitude.Value() == 48.85661 && Table[0].longitude.Value() == 2.351499
  {
    assert Table[0] == Paris;
    TableCoordinates();
  }

  /** Every coordinate of the table has the value of its literal. */
  lemma TableCoordinates()
    ensures Paris.latitude.Value() == 48.85661 && Paris.longitude.Value() == 2.351499
    ensures Cologne.latitude.Value() == 50.938361 && Cologne.longitude.Value() == 6.959974
    ensures Brussels.latitude.Value() == 50.846557 && Brussels.longitude.Value() == 4.351697
    ensures Amsterdam.latitude.Value() == 52.370216 && Amsterdam.longitude.Value() == 4.895168
    ensures Hamburg.latitude.Value() == 53.550341 && Hamburg.longitude.Value() == 10.000654
    ensures Dusseldorf.latitude.Value() == 51.225402 && Dusseldorf.longitude.Value() == 6.776314
  {
    WestCoordinates();
    EastCoordinates();
  }

  lemma WestCoordinates()
    ensures Paris.latitude.Value() == 48.85661 && Paris.longitude.Value() == 2.351499
    ensures Brussels.latitude.Value() == 50.846557 && Brussels.longitude.Value() == 4.351697
    ensures Amsterdam.latitude.Value() == 52.370216 && Amsterdam.longitude.Value() == 4.895168
  {
    FiveDigits("85661");
    assert Pow10(5) == 100000;
    SixDigitValue(Paris.longitude);
    SixDigitValue(Brussels.latitude);
    SixDigitValue(Brussels.longitude);
    SixDigitValue(Amsterdam.latitude);
    SixDigitValue(Amsterdam.longitude);
  }

  lemma EastCoordinates()
    ensures Cologne.latitude.Value() == 50.938361 && Cologne.longitude.Value() == 6.959974
    ensures Hamburg.latitude.Value() == 53.550341 && Hamburg.longitude.Value() == 10.000654
    ensures Dusseldorf.latitude.Value() == 51.225402 && Dusseldorf.longitude.Value() == 6.776314
  {
    SixDigitValue(Cologne.latitude);
    SixDigitValue(Cologne.longitude);
    SixDigitValue(Hamburg.latitude);
    SixDigitValue(Hamburg.longitude);
    SixDigitValue(Dusseldorf.latitude);
    SixDigitValue(Dusseldorf.longitude);
  }

  /** The value of a coordinate with six decimals, digit by digit. */
  lemma SixDigitValue(g: Degrees)
    requires g.Valid() && |g.frac| == 6
    ensures var f := g.frac;
      g.Value() == g.whole as real + (100000 * DigitValue(f[0]) + 10000 * DigitValue(f[1]) + 1000 * DigitValue(f[2])
        + 100 * DigitValue(f[3]) + 10 * DigitValue(f[4]) + DigitValue(f[5])) as real / 1000000.0
  {
    SixDigits(g.frac);
    assert Pow10(6) == 1000000;
  }

  /** The value of a five-digit literal, digit by digit. */
  lemma FiveDigits(d: string)
    requires |d| == 5 && AllDigits(d)
    ensures DigitsValue(d) == 10000 * DigitValue(d[0]) + 1000 * DigitValue(d[1]) + 100 * DigitValue(d[2])
      + 10 * DigitValue(d[3]) + DigitValue(d[4])
  {
    DigitsOf(d);
    assert d[..0] == "" && d[..5] == d;
  }

  /** The value of a six-digit literal, digit by digit. */
  lemma SixDigits(d: string)
    requires |d| == 6 && AllDigits(d)
    ensures DigitsValue(d) == 100000 * DigitValue(d[0]) + 10000 * DigitValue(d[1]) + 1000 * DigitValue(d[2])
      + 100 * DigitValue(d[3]) + 10 * DigitValue(d[4]) + DigitValue(d[5])
  {
    var p := d[..5];
    FiveDigits(p);
    assert d[..6] == d && d[..5] == p;
  }

  /** Unfolds `DigitsValue` along every prefix of a literal. */
  lemma DigitsOf(d: string)
    requires AllDigits(d)
    ensures forall k :: 0 < k <= |d| ==> DigitsValue(d[..k]) == 10 * DigitsValue(d[..k - 1]) + DigitValue(d[k - 1])
  {
    forall k | 0 < k <= |d|
      ensures DigitsValue(d[..k]) == 10 * DigitsValue(d[..k - 1]) + DigitValue(d[k - 1])
    {
      assert d[..k][..k - 1] == d[..k - 1];
    }
  }
}
