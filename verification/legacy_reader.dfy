/** The lenient TSV reader of the legacy JavaScript CLI (`FileReader` in
    `src/cli.js`): the same row format as the strict reader, but a row that
    cannot be parsed is skipped rather than failing the file, and a file that
    cannot be used yields no records at all. */
module LegacyReader {
  import opened Results
  import opened Text
  import opened Numbers
  import Cities
  import opened TsvReader

  /** One record as the legacy parser returns it. It has no author fields, and
      its coordinates are the table's, never the row's. The random `authorId`
      it also carries is not modelled. */
  datatype LegacyOffer = LegacyOffer(
    title: Option<string>,
    description: Option<string>,
    date: Option<string>,
    city: string,
    preview: Option<string>,
    images: seq<string>,
    isPremium: bool,
    isFavorite: bool,
    rating: Num,
    housingType: Option<string>,
    bedrooms: Num,
    guests: Num,
    price: Num,
    amenities: seq<string>,
    latitude: real,
    longitude: real,
    commentCount: Num)

  /** The record's coordinates are those the table lists for its city. */
  predicate FromTable(o: LegacyOffer) {
    && Cities.Find(o.city).Some?
    && o.latitude == Cities.Find(o.city).value.latitude.Value()
    && o.longitude == Cities.Find(o.city).value.longitude.Value()
  }

  /** `FileReader.parseOfferRow`: `None` (JavaScript `null`) for an unknown city
      and for a missing list column, whose `.split` throws and is caught. */
  function LegacyParseRow(headers: seq<string>, values: seq<string>): (r: Option<LegacyOffer>)
    ensures r.Some? ==> FromTable(r.value) && |r.value.images| <= MaxImages
  {
    var row := RowData(headers, values);
    var city := Property(row, "city");
    if city.None? || Cities.Find(city.value).None? then None
    else if "images" !in row || "amenities" !in row then None
    else
      var coords := Cities.Find(city.value).value;
      Some(LegacyOffer(
        title := Property(row, "title"),
        description := Property(row, "description"),
        date := Property(row, "date"),
        city := city.value,
        preview := Property(row, "preview"),
        images := Take(CommaList(row["images"]), MaxImages),
        isPremium := Property(row, "isPremium") == Some("true"),
        isFavorite := Property(row, "isFavorite") == Some("true"),
        rating := ParseFloat(JsText(Property(row, "rating"))),
        housingType := Property(row, "type"),
        bedrooms := ParseInt(JsText(Property(row, "bedrooms"))),
        guests := ParseInt(JsText(Property(row, "guests"))),
        price := ParseInt(JsText(Property(row, "price"))),
        amenities := CommaList(row["amenities"]),
        latitude := coords.latitude.Value(),
        longitude := coords.longitude.Value(),
        commentCount := ParseInt(OrDefault(Property(row, "commentCount"), "0"))))
  }

  /** `FileReader.readTSV`: no file, or fewer than two non-blank lines, gives
      no records; otherwise the rows that parse, in file order. */
  function LegacyReadTsv(file: Option<string>): (r: seq<LegacyOffer>)
    ensures file.None? ==> r == []
    ensures file.Some? && |NonBlankLines(file.value)| < 2 ==> r == []
    ensures file.Some? ==> |r| <= |NonBlankLines(file.value)| - 1 || r == []
  {
    if file.None? then []
    else
      var lines := NonBlankLines(file.value);
      if |lines| < 2 then [] else KeepParsed(Header(lines), lines[1..])
  }

  /** The legacy parse of every data row, in order. */
  function ParsedRows(headers: seq<string>, rows: seq<string>): (ps: seq<Option<LegacyOffer>>)
    ensures |ps| == |rows|
    ensures forall i :: 0 <= i < |rows| ==> ps[i] == LegacyParseRow(headers, Cells(rows[i]))
  {
    seq(|rows|, i requires 0 <= i < |rows| => LegacyParseRow(headers, Cells(rows[i])))
  }

  /** The records of the rows that parse, in order (`if (offer) offers.push(offer)`). */
  function KeepParsed(headers: seq<string>, rows: seq<string>): (r: seq<LegacyOffer>)
    ensures |r| <= |rows|
    ensures |r| == |rows| <==> forall i :: 0 <= i < |rows| ==> LegacyParseRow(headers, Cells(rows[i])).Some?
  {
    Somes(ParsedRows(headers, rows))
  }

  /** Every record the legacy reader returns takes its coordinates from the table. */
  lemma LegacyRecordsFromTable(file: Option<string>)
    ensures forall k :: 0 <= k < |LegacyReadTsv(file)| ==> FromTable(LegacyReadTsv(file)[k])
  {
    if file.Some? && |NonBlankLines(file.value)| >= 2 {
      var lines := NonBlankLines(file.value);
      var ps := ParsedRows(Header(lines), lines[1..]);
      forall i | 0 <= i < |ps| && ps[i].Some?
        ensures FromTable(ps[i].value)
      {
      }
      SomesFromTable(ps);
    }
  }

  lemma SomesFromTable(ps: seq<Option<LegacyOffer>>)
    requires forall i :: 0 <= i < |ps| && ps[i].Some? ==> FromTable(ps[i].value)
    ensures forall k :: 0 <= k < |Somes(ps)| ==> FromTable(Somes(ps)[k])
  {
    var r := Somes(ps);
    forall k | 0 <= k < |r| ensures FromTable(r[k]) {
      var i :| 0 <= i < |ps| && ps[i] == Some(r[k]);
    }
  }

  /** What the legacy parser keeps of a strict record: everything but the
      author fields, with the table's coordinates in place of the row's. */
  function Project(o: ParsedOffer): (l: LegacyOffer)
    requires Cities.Find(o.city).Some?
  {
    var coords := Cities.Find(o.city).value;
    LegacyOffer(o.title, o.description, o.date, o.city, o.preview, o.images, o.isPremium,
      o.isFavorite, o.rating, o.housingType, o.bedrooms, o.guests, o.price, o.amenities,
      coords.latitude.Value(), coords.longitude.Value(), o.commentCount)
  }

  /** Row by row the two parsers agree: the legacy one returns a record exactly
      when the strict one does, and then it is the strict record projected. */
  lemma ParsersAgree(headers: seq<string>, values: seq<string>)
    ensures LegacyParseRow(headers, values).Some? <==> ParseOfferRow(headers, values).Ok?
    ensures ParseOfferRow(headers, values).Ok? ==>
      LegacyParseRow(headers, values) == Some(Project(ParseOfferRow(headers, values).value))
  {
  }

  /** When every row parses, the legacy reader keeps all of them, projected. */
  lemma KeepParsedAll(headers: seq<string>, rows: seq<string>, records: seq<ParsedOffer>)
    requires |records| == |rows|
    requires forall i :: 0 <= i < |rows| ==> ParseOfferRow(headers, Cells(rows[i])) == Ok(records[i])
    ensures |KeepParsed(headers, rows)| == |rows|
    ensures forall i :: 0 <= i < |rows| ==>
      Cities.Find(records[i].city).Some? && KeepParsed(headers, rows)[i] == Project(records[i])
  {
    var ps := ParsedRows(headers, rows);
    forall i | 0 <= i < |rows|
      ensures Cities.Find(records[i].city).Some? && ps[i] == Some(Project(records[i]))
    {
      ParsersAgree(headers, Cells(rows[i]));
    }
  }

  /** A file the strict reader accepts gives the same records, in the same
      order, through the legacy reader, projected. */
  lemma LegacyReadOfStrictOk(file: Option<string>)
    requires ReadTsv(file).Ok?
    ensures var records := ReadTsv(file).value;
      && |LegacyReadTsv(file)| == |records|
      && forall i :: 0 <= i < |records| ==>
           Cities.Find(records[i].city).Some? && LegacyReadTsv(file)[i] == Project(records[i])
  {
    var lines := NonBlankLines(file.value);
    ReadLinesRecords(lines);
    KeepParsedOfLines(lines, ReadLines(lines).value);
  }

  /** `KeepParsedAll` for the data lines of a file, numbered from the header. */
  lemma KeepParsedOfLines(lines: seq<string>, records: seq<ParsedOffer>)
    requires |lines| == |records| + 1
    requires forall i :: 0 <= i < |records| ==> ParseOfferRow(Header(lines), Cells(lines[i + 1])) == Ok(records[i])
    ensures |KeepParsed(Header(lines), lines[1..])| == |records|
    ensures forall i :: 0 <= i < |records| ==>
      Cities.Find(records[i].city).Some? && KeepParsed(Header(lines), lines[1..])[i] == Project(records[i])
  {
    var rows := lines[1..];
    forall i | 0 <= i < |rows|
      ensures ParseOfferRow(Header(lines), Cells(rows[i])) == Ok(records[i])
    {
      assert rows[i] == lines[i + 1];
    }
    KeepParsedAll(Header(lines), rows, records);
  }

  /** Where the strict reader fails on a bad row, the legacy reader still
      returns the other rows: strictly fewer records than data rows. */
  lemma LegacyReadSkipsBadRow(file: Option<string>)
    requires ReadTsv(file).Err? && ReadTsv(file).error.BadRow?
    ensures file.Some?
    ensures |LegacyReadTsv(file)| < |NonBlankLines(file.value)| - 1
  {
    var lines := NonBlankLines(file.value);
    var headers, rows := Header(lines), lines[1..];
    assert ReadLines(lines) == ReadRows(headers, rows);
    var e := ReadRows(headers, rows).error;
    ParsersAgree(headers, Cells(rows[e.row]));
    KeepParsedDrops(headers, rows, e.row);
    assert LegacyReadTsv(file) == KeepParsed(headers, rows);
  }

  /** What the strict parser makes of each data row, read the legacy way: the
      projected record where it accepts the row, `null` where it refuses it. */
  function StrictOutcomes(headers: seq<string>, rows: seq<string>): (ps: seq<Option<LegacyOffer>>)
    ensures |ps| == |rows|
  {
    seq(|rows|, i requires 0 <= i < |rows| =>
      match ParseOfferRow(headers, Cells(rows[i]))
      case Ok(o) => Some(Project(o))
      case Err(_) => None)
  }

  /** For every usable file, bad rows included, the legacy reader returns
      exactly the records of the rows the strict parser accepts, projected,
      in file order, and drops exactly the rows it refuses. */
  lemma LegacyReadIsStrictFiltered(file: Option<string>)
    requires file.Some? && |NonBlankLines(file.value)| >= 2
    ensures var lines := NonBlankLines(file.value);
      LegacyReadTsv(file) == Somes(StrictOutcomes(Header(lines), lines[1..]))
  {
    var lines := NonBlankLines(file.value);
    LegacyReadOfLines(file.value);
    ParsedRowsAreStrict(Header(lines), lines[1..]);
  }

  /** A file of two or more non-blank lines is read as the records of its data rows. */
  lemma LegacyReadOfLines(text: string)
    requires |NonBlankLines(text)| >= 2
    ensures var lines := NonBlankLines(text);
      LegacyReadTsv(Some(text)) == Somes(ParsedRows(Header(lines), lines[1..]))
  {
  }

  /** Row by row, the legacy parse is the projected strict parse. */
  lemma ParsedRowsAreStrict(headers: seq<string>, rows: seq<string>)
    ensures ParsedRows(headers, rows) == StrictOutcomes(headers, rows)
  {
    var ps, qs := ParsedRows(headers, rows), StrictOutcomes(headers, rows);
    forall i | 0 <= i < |rows|
      ensures ps[i] == qs[i]
    {
      ParsersAgree(headers, Cells(rows[i]));
    }
  }

  /** Skipping a row leaves the rows on either side of it untouched: the
      result is the records before it followed by the records after it. */
  lemma KeepParsedSkips(headers: seq<string>, rows: seq<string>, k: nat)
    requires k < |rows| && LegacyParseRow(headers, Cells(rows[k])).None?
    ensures KeepParsed(headers, rows) == KeepParsed(headers, rows[..k]) + KeepParsed(headers, rows[k + 1..])
  {
    ParsedRowsAround(headers, rows, k);
    SomesSkip(ParsedRows(headers, rows), k);
  }

  /** The parses of the rows before and after `k` are the corresponding parts of the parses of all rows. */
  lemma ParsedRowsAround(headers: seq<string>, rows: seq<string>, k: nat)
    requires k < |rows|
    ensures ParsedRows(headers, rows[..k]) == ParsedRows(headers, rows)[..k]
    ensures ParsedRows(headers, rows[k + 1..]) == ParsedRows(headers, rows)[k + 1..]
  {
  }

  /** A row the legacy parser refuses is missing from its result. */
  lemma KeepParsedDrops(headers: seq<string>, rows: seq<string>, k: nat)
    requires k < |rows| && LegacyParseRow(headers, Cells(rows[k])).None?
    ensures |KeepParsed(headers, rows)| < |rows|
  {
  }
}
