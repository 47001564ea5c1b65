/** The strict TSV reader of the TypeScript importer (`readTSV` and
    `parseOfferRow` in `src/cli/import.command.ts`): file text in, parsed offer
    records out, and any bad row fails the whole read. */
module TsvReader {
  import opened Results
  import opened Text
  import opened Numbers
  import Cities

  /** One data row as the importer hands it on. Fields that come from a column
      the header does not name are JavaScript `undefined` (`None`); numbers are
      whatever `parseInt`/`parseFloat` produced, NaN included. */
  datatype ParsedOffer = ParsedOffer(
    title: Option<string>,
    description: Option<string>,
    date: Option<string>,
    city: string,
    preview: Option<string>,
    images: seq<string>,
    isPremium: bool,
    isFavorite: bool,
    rating: Num,
    housingType: Option<string>,
    bedrooms: Num,
    guests: Num,
    price: Num,
    amenities: seq<string>,
    authorName: string,
    authorEmail: string,
    authorAvatar: Option<string>,
    authorType: string,
    latitude: Num,
    longitude: Num,
    commentCount: Num)

  /** Why one row cannot be parsed: its city is not in the table, or a list
      column is absent from the header (so `.split` is called on `undefined`). */
  datatype RowError = UnknownCity(name: Option<string>) | MissingListColumn(column: string)

  datatype ReadError = FileNotReadable | NoDataRows | BadRow(row: nat, cause: RowError)

  /** At most this many images are kept (`images.slice(0, 6)`). */
  const MaxImages: nat := 6

  /** `values[index] || ''`: the cell under column `i`, or `''` past the end of the row. */
  function Cell(values: seq<string>, i: nat): string {
    if i < |values| then values[i] else ""
  }

  /** The record `rowData` built by assigning `rowData[header] = values[index] || ''`
      for each header in order, so a repeated header keeps its last column. */
  function RowData(headers: seq<string>, values: seq<string>): (row: map<string, string>)
    ensures row.Keys == set h | h in headers
    decreases |headers|
  {
    if |headers| == 0 then map[]
    else
      var n := |headers| - 1;
      assert forall h :: h in headers <==> h in headers[..n] || h == headers[n];
      RowData(headers[..n], values)[headers[n] := Cell(values, n)]
  }

  /** Each column name is bound to the cell under its last occurrence in the header. */
  lemma {:induction false} RowDataLastWins(headers: seq<string>, values: seq<string>, i: nat)
    requires i < |headers| && headers[i] !in headers[i + 1..]
    ensures RowData(headers, values)[headers[i]] == Cell(values, i)
    decreases |headers|
  {
    var n := |headers| - 1;
    if i < n {
      var prefix := headers[..n];
      assert headers[n] == headers[i + 1..][n - i - 1];
      assert prefix[i + 1..] == headers[i + 1..n];
      RowDataLastWins(prefix, values, i);
    }
  }

  /** `value || fallback` for a possibly-undefined string. */
  function OrDefault(value: Option<string>, fallback: string): (r: string)
    ensures value.Some? && value.value != "" ==> r == value.value
    ensures (value.None? || value.value == "") ==> r == fallback
  {
    if value.Some? && value.value != "" then value.value else fallback
  }

  /** JavaScript's `String(value)` for a possibly-undefined string. */
  function JsText(value: Option<string>): string {
    value.GetOr("undefined")
  }

  /** `parseOfferRow(headers, values)`: success exactly when the city is one of
      the six table names and both list columns exist. */
  function ParseOfferRow(headers: seq<string>, values: seq<string>): (r: Result<ParsedOffer, RowError>)
    ensures r.Ok? <==> var city := Property(RowData(headers, values), "city");
      && city.Some? && Cities.Find(city.value).Some?
      && "images" in headers && "amenities" in headers
    ensures r.Ok? ==> var o := r.value;
      && Cities.Find(o.city).Some?
      && |o.images| <= MaxImages
      && Truthy(o.latitude) && Truthy(o.longitude)
      && o.authorType != ""
      && (o.authorAvatar.Some? ==> o.authorAvatar.value != "")
  {
    var row := RowData(headers, values);
    var city := Property(row, "city");
    if city.None? || Cities.Find(city.value).None? then Err(UnknownCity(city))
    else if "images" !in row then Err(MissingListColumn("images"))
    else if "amenities" !in row then Err(MissingListColumn("amenities"))
    else Ok(BuildOffer(row, Cities.Find(city.value).value))
  }

  /** A row naming a table city under `city` and holding both list columns
      is accepted as the record `BuildOffer` makes of it. */
  lemma ParseOfferRowAccepts(headers: seq<string>, values: seq<string>, city: string)
    requires Property(RowData(headers, values), "city") == Some(city) && Cities.Find(city).Some?
    requires "images" in headers && "amenities" in headers
    ensures var row := RowData(headers, values);
      && "images" in row && "amenities" in row && "city" in row && row["city"] == city
      && ParseOfferRow(headers, values) == Ok(BuildOffer(row, Cities.Find(city).value))
  {
  }

  /** The record `parseOfferRow` returns once the city `coords` is found and
      both list columns exist. */
  function BuildOffer(row: map<string, string>, coords: Cities.City): (o: ParsedOffer)
    requires "images" in row && "amenities" in row && "city" in row && row["city"] == coords.name
    requires Cities.WellFormed(coords)
    ensures o.city == coords.name && |o.images| <= MaxImages
    ensures Truthy(o.latitude) && Truthy(o.longitude)
    ensures o.authorType != "" && (o.authorAvatar.Some? ==> o.authorAvatar.value != "")
    ensures o.isPremium <==> Property(row, "isPremium") == Some("true")
    ensures o.isFavorite <==> Property(row, "isFavorite") == Some("true")
    ensures o.authorName == Property(row, "authorName").GetOr("")
    ensures o.authorEmail == Property(row, "authorEmail").GetOr("")
    ensures Property(row, "authorType") in {None, Some("")} ==> o.authorType == "normal"
    ensures Property(row, "authorType") !in {None, Some("")} ==> o.authorType == row["authorType"]
    ensures Property(row, "commentCount") in {None, Some("")} ==> o.commentCount == Fin(0.0)
    ensures o.images == Images(row["images"]) && o.amenities == CommaList(row["amenities"])
    ensures o.title == Property(row, "title") && o.description == Property(row, "description")
    ensures o.date == Property(row, "date") && o.preview == Property(row, "preview")
    ensures o.housingType == Property(row, "type")
    ensures o.rating == ParseFloat(JsText(Property(row, "rating")))
    ensures o.bedrooms == ParseInt(JsText(Property(row, "bedrooms")))
    ensures o.guests == ParseInt(JsText(Property(row, "guests")))
    ensures o.price == ParseInt(JsText(Property(row, "price")))
    ensures Truthy(ParseFloat(JsText(Property(row, "latitude")))) ==> o.latitude == ParseFloat(JsText(Property(row, "latitude")))
    ensures Truthy(ParseFloat(JsText(Property(row, "longitude")))) ==> o.longitude == ParseFloat(JsText(Property(row, "longitude")))
    ensures !Truthy(ParseFloat(JsText(Property(row, "latitude")))) ==> o.latitude == Fin(coords.latitude.Value())
    ensures !Truthy(ParseFloat(JsText(Property(row, "longitude")))) ==> o.longitude == Fin(coords.longitude.Value())
  {
    Cities.PositiveCoordinates(coords);
    ParseIntOfZero();
    ParsedOffer(
      title := Property(row, "title"),
      description := Property(row, "description"),
      date := Property(row, "date"),
      city := row["city"],
      preview := Property(row, "preview"),
      images := Images(row["images"]),
      isPremium := Property(row, "isPremium") == Some("true"),
      isFavorite := Property(row, "isFavorite") == Some("true"),
      rating := ParseFloat(JsText(Property(row, "rating"))),
      housingType := Property(row, "type"),
      bedrooms := ParseInt(JsText(Property(row, "bedrooms"))),
      guests := ParseInt(JsText(Property(row, "guests"))),
      price := ParseInt(JsText(Property(row, "price"))),
      amenities := CommaList(row["amenities"]),
      authorName := OrDefault(Property(row, "authorName"), ""),
      authorEmail := OrDefault(Property(row, "authorEmail"), ""),
      authorAvatar := Avatar(Property(row, "authorAvatar")),
      authorType := OrDefault(Property(row, "authorType"), "normal"),
      latitude := Coordinate(Property(row, "latitude"), coords.latitude.Value()),
      longitude := Coordinate(Property(row, "longitude"), coords.longitude.Value()),
      commentCount := ParseInt(OrDefault(Property(row, "commentCount"), "0")))
  }

  /** The list columns of an accepted row, written as comma-free cells (padded
      or empty ones included), hold those cells trimmed with the empty ones
      dropped, and the images are the first six of them. */
  lemma ParsedLists(headers: seq<string>, values: seq<string>, images: seq<string>, amenities: seq<string>)
    requires ParseOfferRow(headers, values).Ok?
    requires RowData(headers, values)["images"] == Join(images, ',') && |images| >= 1
    requires RowData(headers, values)["amenities"] == Join(amenities, ',') && |amenities| >= 1
    requires forall k :: 0 <= k < |images| ==> ',' !in images[k]
    requires forall k :: 0 <= k < |amenities| ==> ',' !in amenities[k]
    ensures var o := ParseOfferRow(headers, values).value;
      && o.images == Take(NonEmptyTrimmed(images), MaxImages)
      && o.amenities == NonEmptyTrimmed(amenities)
  {
    var row := RowData(headers, values);
    var city := row["city"];
    ParseOfferRowAccepts(headers, values, city);
    CommaListOfCells(images);
    CommaListOfCells(amenities);
  }

  /** The default comment count `'0'` parses to zero. */
  lemma ParseIntOfZero()
    ensures ParseInt("0") == Fin(0.0)
  {
    ParseIntOfShowInt("", 0, "");
    assert "" + ShowInt(0) + "" == "0";
  }

  /** `images.slice(0, 6)` of the comma list: at most six, in file order. */
  function Images(field: string): (r: seq<string>)
    ensures |r| <= MaxImages && |r| <= |CommaList(field)|
    ensures r == CommaList(field)[..|r|]
    ensures |r| < MaxImages ==> r == CommaList(field)
  {
    Take(CommaList(field), MaxImages)
  }

  /** `authorAvatar || undefined`: an empty or missing avatar is absent. */
  function Avatar(value: Option<string>): (r: Option<string>)
    ensures r.Some? <==> value.Some? && value.value != ""
    ensures r.Some? ==> r == value
  {
    if OrDefault(value, "") == "" then None else value
  }

  /** `parseFloat(value) || fallback`: the table coordinate replaces NaN and 0. */
  function Coordinate(value: Option<string>, fallback: real): (r: Num)
    requires fallback != 0.0
    ensures Truthy(r)
    ensures Truthy(ParseFloat(JsText(value))) ==> r == ParseFloat(JsText(value))
    ensures !Truthy(ParseFloat(JsText(value))) ==> r == Fin(fallback)
  {
    OrElse(ParseFloat(JsText(value)), fallback)
  }

  /** The cells of one line: `line.split('\t')`. */
  function Cells(line: string): seq<string> {
    Split(line, '\t')
  }

  /** The outcome of `parseOfferRow` for every data row, in file order. */
  function RowResults(headers: seq<string>, rows: seq<string>): (rs: seq<Result<ParsedOffer, RowError>>)
    ensures |rs| == |rows|
    ensures forall i :: 0 <= i < |rows| ==> rs[i] == ParseOfferRow(headers, Cells(rows[i]))
  {
    seq(|rows|, i requires 0 <= i < |rows| => ParseOfferRow(headers, Cells(rows[i])))
  }

  /** The header cells and the data lines of a file. */
  function Header(lines: seq<string>): seq<string>
    requires |lines| > 0
  {
    Cells(lines[0])
  }

  /** `readTSV`: the file's non-blank lines, the first as header, every other one
      an offer. No file, or fewer than two non-blank lines, is an error, and so is
      any bad row: the read never skips a row, so a successful read is never empty. */
  function ReadTsv(file: Option<string>): (r: Result<seq<ParsedOffer>, ReadError>)
    ensures file.None? ==> r == Err(FileNotReadable)
  {
    if file.None? then Err(FileNotReadable) else ReadLines(NonBlankLines(file.value))
  }

  /** `readTSV` once the non-blank lines are known. */
  function ReadLines(lines: seq<string>): (r: Result<seq<ParsedOffer>, ReadError>)
    ensures |lines| < 2 ==> r == Err(NoDataRows)
    ensures r.Ok? ==> |r.value| == |lines| - 1 >= 1
    ensures r.Ok? <==> |lines| >= 2 && forall i :: 1 <= i < |lines| ==> ParseOfferRow(Header(lines), Cells(lines[i])).Ok?
  {
    if |lines| < 2 then Err(NoDataRows)
    else
      DataRows(lines);
      ReadRows(Header(lines), lines[1..])
  }

  /** The data lines are the lines after the header. */
  lemma DataRows(lines: seq<string>)
    requires |lines| >= 1
    ensures |lines[1..]| == |lines| - 1
    ensures forall i :: 0 <= i < |lines| - 1 ==> lines[1..][i] == lines[i + 1]
    ensures forall i :: 1 <= i < |lines| ==> lines[i] == lines[1..][i - 1]
  {
  }

  /** The loop of `readTSV` over the data rows: every row must parse, and the
      first one that does not fails the read. */
  function ReadRows(headers: seq<string>, rows: seq<string>): (r: Result<seq<ParsedOffer>, ReadError>)
    ensures r.Ok? <==> forall i :: 0 <= i < |rows| ==> ParseOfferRow(headers, Cells(rows[i])).Ok?
    ensures r.Ok? ==> (|r.value| == |rows|
      && forall i :: 0 <= i < |rows| ==> ParseOfferRow(headers, Cells(rows[i])) == Ok(r.value[i]))
    ensures r.Err? ==> (r.error.BadRow? && r.error.row < |rows|
      && ParseOfferRow(headers, Cells(rows[r.error.row])) == Err(r.error.cause)
      && forall i :: 0 <= i < r.error.row ==> ParseOfferRow(headers, Cells(rows[i])).Ok?)
  {
    match Collect(RowResults(headers, rows))
    case Ok(offers) => Ok(offers)
    case Err((k, e)) => Err(BadRow(k, e))
  }

  /** A successful read holds, in file order, the parse of every data line. */
  lemma ReadLinesRecords(lines: seq<string>)
    requires ReadLines(lines).Ok?
    ensures forall i :: 0 <= i < |ReadLines(lines).value| ==>
        ParseOfferRow(Header(lines), Cells(lines[i + 1])) == Ok(ReadLines(lines).value[i])
  {
    DataRows(lines);
    assert ReadLines(lines) == ReadRows(Header(lines), lines[1..]);
  }

  /** A failed read names the first bad data line and why it failed. */
  lemma ReadLinesBadRow(lines: seq<string>)
    requires ReadLines(lines).Err? && ReadLines(lines).error.BadRow?
    ensures var e := ReadLines(lines).error;
      && e.row + 1 < |lines|
      && ParseOfferRow(Header(lines), Cells(lines[e.row + 1])) == Err(e.cause)
      && forall i :: 1 <= i <= e.row ==> ParseOfferRow(Header(lines), Cells(lines[i])).Ok?
  {
    DataRows(lines);
    assert ReadLines(lines) == ReadRows(Header(lines), lines[1..]);
  }

  /** Data lines that each parse as the matching record read back as exactly those records. */
  lemma ReadLinesOfRecords(lines: seq<string>, records: seq<ParsedOffer>)
    requires |lines| == |records| + 1 >= 2
    requires forall i :: 0 <= i < |records| ==> ParseOfferRow(Header(lines), Cells(lines[i + 1])) == Ok(records[i])
    ensures ReadLines(lines) == Ok(records)
  {
    DataRows(lines);
    var rows := lines[1..];
    forall i | 0 <= i < |rows|
      ensures ParseOfferRow(Header(lines), Cells(rows[i])) == Ok(records[i])
    {
      assert rows[i] == lines[i + 1];
    }
    ReadRowsOfRecords(Header(lines), rows, records);
  }

  /** When every row parses to a given record, the loop returns exactly those records. */
  lemma ReadRowsOfRecords(headers: seq<string>, rows: seq<string>, records: seq<ParsedOffer>)
    requires |rows| == |records|
    requires forall i :: 0 <= i < |rows| ==> ParseOfferRow(headers, Cells(rows[i])) == Ok(records[i])
    ensures ReadRows(headers, rows) == Ok(records)
  {
    var rs := RowResults(headers, rows);
    forall i | 0 <= i < |rs|
      ensures rs[i] == Ok(records[i])
    {
    }
    CollectOfOks(rs, records);
  }

  /** A header line followed by data lines reads as the loop over the data lines. */
  lemma ReadLinesOfHeader(header: string, rows: seq<string>)
    requires |rows| > 0
    ensures ReadLines([header] + rows) == ReadRows(Cells(header), rows)
  {
    assert ([header] + rows)[1..] == rows;
  }

  lemma ReadLinesAccepted(lines: seq<string>, records: seq<ParsedOffer>)
    requires |lines| == |records| + 1 >= 2
    requires forall i :: 0 <= i < |records| ==> ParseOfferRow(Header(lines), Cells(lines[i + 1])) == Ok(records[i])
    ensures ReadLines(lines).Ok? && |ReadLines(lines).value| == |records|
  {
    DataRows(lines);
    var rows := lines[1..];
    forall i | 0 <= i < |rows|
      ensures ParseOfferRow(Header(lines), Cells(rows[i])).Ok?
    {
      assert ParseOfferRow(Header(lines), Cells(lines[i + 1])) == Ok(records[i]);
    }
    assert ReadLines(lines) == ReadRows(Header(lines), rows);
  }
}
