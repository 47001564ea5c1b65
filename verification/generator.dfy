/** The legacy CLI's test-data generator (`DataGenerator` in `src/cli.js`):
    the order-preserving de-duplication of the amenity list, and the shape of
    the TSV text `generateTSV` writes, which the strict reader reads back. */
module Generator {
  import opened Results
  import opened Text
  import opened Numbers
  import Cities
  import opened TsvReader

  /** `xs.indexOf(v)`: the first position of `v`, or -1. */
  function IndexOf(xs: seq<string>, v: string): (r: int)
    ensures r == -1 <==> v !in xs
    ensures r != -1 ==> 0 <= r < |xs| && xs[r] == v && v !in xs[..r]
  {
    if |xs| == 0 then -1
    else if xs[0] == v then 0
    else
      var r := IndexOf(xs[1..], v);
      assert forall i :: 1 <= i < |xs| ==> xs[i] == xs[1..][i - 1];
      if r == -1 then -1
      else
        assert xs[..r + 1] == [xs[0]] + xs[1..][..r];
        r + 1
  }

  predicate NoDuplicates(xs: seq<string>) {
    forall i, j :: 0 <= i < j < |xs| ==> xs[i] != xs[j]
  }

  /** `xs.filter((v, i, a) => a.indexOf(v) === i)` over the first `k` elements. */
  function KeepFirst(xs: seq<string>, k: nat): (r: seq<string>)
    requires k <= |xs|
    ensures forall v :: v in r <==> v in xs[..k]
    ensures NoDuplicates(r)
    ensures forall i, j :: 0 <= i < j < |r| ==> IndexOf(xs, r[i]) < IndexOf(xs, r[j])
  {
    if k == 0 then []
    else
      var prev := KeepFirst(xs, k - 1);
      assert xs[..k] == xs[..k - 1] + [xs[k - 1]];
      if IndexOf(xs, xs[k - 1]) == k - 1 then
        assert xs[..k - 1] == xs[..IndexOf(xs, xs[k - 1])];
        forall i | 0 <= i < |prev| ensures IndexOf(xs, prev[i]) < k - 1 {
          assert prev[i] in xs[..k - 1];
        }
        prev + [xs[k - 1]]
      else
        prev
  }

  /** The amenity filter: each value once, at its first position, in order. */
  function Dedup(xs: seq<string>): (r: seq<string>)
    ensures forall v :: v in r <==> v in xs
    ensures NoDuplicates(r)
    ensures forall i, j :: 0 <= i < j < |r| ==> IndexOf(xs, r[i]) < IndexOf(xs, r[j])
  {
    assert xs[..|xs|] == xs;
    KeepFirst(xs, |xs|)
  }

  /** An independent reading of the filter: walk the list and drop any value already kept. */
  function DedupRef(xs: seq<string>): seq<string> {
    if |xs| == 0 then []
    else
      var r := DedupRef(xs[..|xs| - 1]);
      if xs[|xs| - 1] in r then r else r + [xs[|xs| - 1]]
  }

  lemma {:induction false} DedupRefElements(xs: seq<string>)
    ensures forall v :: v in DedupRef(xs) <==> v in xs
  {
    if |xs| > 0 {
      var n := |xs| - 1;
      DedupRefElements(xs[..n]);
      assert xs == xs[..n] + [xs[n]];
    }
  }

  /** The index-based filter and the walk agree on every list. */
  lemma {:induction false} KeepFirstIsDedupRef(xs: seq<string>, k: nat)
    requires k <= |xs|
    ensures KeepFirst(xs, k) == DedupRef(xs[..k])
  {
    if k > 0 {
      var v := xs[k - 1];
      assert KeepFirst(xs, k) == if v in xs[..k - 1] then KeepFirst(xs, k - 1) else KeepFirst(xs, k - 1) + [v] by {
        KeepFirstStep(xs, k);
      }
      assert DedupRef(xs[..k]) == if v in xs[..k - 1] then DedupRef(xs[..k - 1]) else DedupRef(xs[..k - 1]) + [v] by {
        DedupRefStep(xs[..k]);
        PrefixOfPrefix(xs, k);
      }
      KeepFirstIsDedupRef(xs, k - 1);
    }
  }

  lemma PrefixOfPrefix(xs: seq<string>, k: nat)
    requires 0 < k <= |xs|
    ensures xs[..k][..k - 1] == xs[..k - 1] && xs[..k][k - 1] == xs[k - 1]
  {
  }

  /** The filter keeps element `k - 1` exactly when it is new. */
  lemma KeepFirstStep(xs: seq<string>, k: nat)
    requires 0 < k <= |xs|
    ensures KeepFirst(xs, k)
      == if xs[k - 1] in xs[..k - 1] then KeepFirst(xs, k - 1) else KeepFirst(xs, k - 1) + [xs[k - 1]]
  {
    FirstOccurrence(xs, k - 1);
  }

  /** The walk keeps the last element exactly when it is new. */
  lemma DedupRefStep(ys: seq<string>)
    requires |ys| > 0
    ensures var n := |ys| - 1;
      DedupRef(ys) == if ys[n] in ys[..n] then DedupRef(ys[..n]) else DedupRef(ys[..n]) + [ys[n]]
  {
    DedupRefElements(ys[..|ys| - 1]);
  }

  /** `indexOf` finds position `i` exactly when its value does not occur before it. */
  lemma FirstOccurrence(xs: seq<string>, i: nat)
    requires i < |xs|
    ensures IndexOf(xs, xs[i]) == i <==> xs[i] !in xs[..i]
  {
    var r := IndexOf(xs, xs[i]);
    assert xs[i] in xs;
    assert r < i ==> xs[..i][r] == xs[i];
  }

  lemma DedupIsDedupRef(xs: seq<string>)
    ensures Dedup(xs) == DedupRef(xs)
  {
    KeepFirstIsDedupRef(xs, |xs|);
    assert xs[..|xs|] == xs;
  }

  /** The 21 column names of the header line, in order. */
  const Headers: seq<string> := [
    "title", "description", "date", "city", "preview", "images", "isPremium",
    "isFavorite", "rating", "type", "bedrooms", "guests", "price", "amenities",
    "authorName", "authorEmail", "authorAvatar", "authorType", "latitude",
    "longitude", "commentCount"]

  lemma HeadersDistinct()
    ensures |Headers| == 21 && NoDuplicates(Headers)
  {
  }

  /** One offer as `generateOffers` builds it; `images` and `amenities` are the
      lists it joins with `,`. */
  datatype GeneratedOffer = GeneratedOffer(
    title: string,
    description: string,
    date: string,
    city: string,
    preview: string,
    images: seq<string>,
    isPremium: bool,
    isFavorite: bool,
    rating: string,
    housingType: string,
    bedrooms: int,
    guests: int,
    price: int,
    amenities: seq<string>,
    commentCount: nat)

  /** The random author choices `generateTSV` makes for one line:
      `User <nameNo>`, `user<emailNo>@example.com`, and `pro` or `normal`. */
  datatype AuthorPick = AuthorPick(nameNo: nat, emailNo: nat, isPro: bool)

  /** How `join` writes a boolean. */
  function ShowBool(b: bool): string {
    if b then "true" else "false"
  }

  function AuthorName(p: AuthorPick): string {
    "User " + ShowNat(p.nameNo)
  }

  function AuthorEmail(p: AuthorPick): string {
    "user" + ShowNat(p.emailNo) + "@example.com"
  }

  /** The avatar URL: the author name lower-cased with its space replaced by `_`. */
  function AvatarUrl(p: AuthorPick): string {
    "https://api.example.com/avatars/user_" + ShowNat(p.nameNo) + ".jpg"
  }

  function AuthorType(p: AuthorPick): string {
    if p.isPro then "pro" else "normal"
  }

  /** The table coordinate of the offer's city as `toString` writes it, or `'0'` for a city not in the table. */
  function CoordinateText(city: string, latitude: bool): string {
    match Cities.Find(city)
    case None => "0"
    case Some(c) => if latitude then c.latitude.Text() else c.longitude.Text()
  }

  /** The 21 values of one data line, in header order, given the text of the city's coordinates. */
  function RowFields(o: GeneratedOffer, p: AuthorPick, latitude: string, longitude: string): (fields: seq<string>)
    ensures |fields| == |Headers|
  {
    [o.title, o.description, o.date, o.city, o.preview, Join(o.images, ','),
     ShowBool(o.isPremium), ShowBool(o.isFavorite), o.rating, o.housingType,
     ShowInt(o.bedrooms), ShowInt(o.guests), ShowInt(o.price), Join(o.amenities, ','),
     AuthorName(p), AuthorEmail(p), AvatarUrl(p), AuthorType(p),
     latitude, longitude, ShowNat(o.commentCount)]
  }

  function RowLine(o: GeneratedOffer, p: AuthorPick): string {
    Join(RowFields(o, p, CoordinateText(o.city, true), CoordinateText(o.city, false)), '\t')
  }

  /** `generateTSV`: the tab-joined header line, then one tab-joined line per offer, joined with newlines. */
  function GenerateTsv(offers: seq<GeneratedOffer>, picks: seq<AuthorPick>): (file: string)
    requires |picks| == |offers|
    ensures StartsWith(file, Join(Headers, '\t'))
    ensures Split(file, '\n')[0] == Join(Headers, '\t')
    ensures file == Join(Headers, '\t') <==> |offers| == 0
  {
    HeaderLine();
    HeaderFirst(Join(Headers, '\t'), Lines(offers, picks));
    Join([Join(Headers, '\t')] + Lines(offers, picks), '\n')
  }

  /** A header line without a newline, joined with further lines, is the first
      line of the result, and the result is that line alone exactly when no lines follow. */
  lemma HeaderFirst(header: string, lines: seq<string>)
    requires '\n' !in header
    ensures var file := Join([header] + lines, '\n');
      && StartsWith(file, header) && Split(file, '\n')[0] == header
      && (file == header <==> |lines| == 0)
  {
    if |lines| > 0 {
      JoinCons(header, lines);
      LineThenRest(header, Join(lines, '\n'));
    } else {
      assert [header] + lines == [header];
      SplitNoSeparator(header, '\n');
    }
  }

  /** Joining a line in front of at least one more puts a newline after it. */
  lemma JoinCons(header: string, lines: seq<string>)
    requires |lines| > 0
    ensures Join([header] + lines, '\n') == header + ['\n'] + Join(lines, '\n')
  {
    assert ([header] + lines)[1..] == lines;
  }

  /** A line followed by a newline and more text is the first piece of the split, and a prefix. */
  lemma LineThenRest(header: string, rest: string)
    requires '\n' !in header
    ensures var file := header + ['\n'] + rest;
      && StartsWith(file, header) && Split(file, '\n')[0] == header && file != header
  {
    var file := header + ['\n'] + rest;
    assert file[..|header|] == header;
    SplitAtSeparator(header, rest, '\n');
    assert |file| > |header|;
  }

  function Lines(offers: seq<GeneratedOffer>, picks: seq<AuthorPick>): (lines: seq<string>)
    requires |picks| == |offers|
    ensures |lines| == |offers|
    ensures forall i :: 0 <= i < |offers| ==> lines[i] == RowLine(offers[i], picks[i])
  {
    seq(|offers|, i requires 0 <= i < |offers| => RowLine(offers[i], picks[i]))
  }

  /** Text that stays inside one TSV cell: no tab, no newline. */
  predicate Plain(s: string) {
    '\t' !in s && '\n' !in s
  }

  /** A list the generator joins with `,` and the reader splits back: non-empty,
      trimmed, comma-free tokens that stay inside one cell. */
  predicate ListTokens(xs: seq<string>) {
    forall k :: 0 <= k < |xs| ==> |xs[k]| > 0 && IsTrimmed(xs[k]) && ',' !in xs[k] && Plain(xs[k])
  }

  /** An offer whose text fits the TSV format and whose city is in the table,
      as every offer `generateOffers` builds is. */
  predicate Writable(o: GeneratedOffer) {
    PlainText(o) && Cities.Find(o.city).Some?
  }

  /** Every offer of a file is writable. */
  predicate AllWritable(offers: seq<GeneratedOffer>) {
    forall i :: 0 <= i < |offers| ==> Cities.Find(offers[i].city).Some? && PlainText(offers[i])
  }

  /** The offer's own text fields and list tokens stay inside their cells. */
  predicate PlainText(o: GeneratedOffer) {
    && Plain(o.title) && Plain(o.description) && Plain(o.date) && Plain(o.preview)
    && Plain(o.rating) && Plain(o.housingType)
    && ListTokens(o.images) && ListTokens(o.amenities)
  }

  /** The record the strict reader makes of a generated line: every text field
      as written, the numbers read back, and the table coordinates. */
  function Expected(o: GeneratedOffer, p: AuthorPick): ParsedOffer
    requires Cities.Find(o.city).Some?
  {
    var c := Cities.Find(o.city).value;
    ParsedOffer(Some(o.title), Some(o.description), Some(o.date), o.city, Some(o.preview),
      Take(o.images, MaxImages), o.isPremium, o.isFavorite, ParseFloat(o.rating), Some(o.housingType),
      Fin(o.bedrooms as real), Fin(o.guests as real), Fin(o.price as real), o.amenities,
      AuthorName(p), AuthorEmail(p), Some(AvatarUrl(p)), AuthorType(p),
      Fin(c.latitude.Value()), Fin(c.longitude.Value()), Fin(o.commentCount as real))
  }

  lemma DigitsArePlain(s: string)
    requires AllDigits(s)
    ensures Plain(s)
  {
    assert forall i :: 0 <= i < |s| ==> s[i] != '\t' && s[i] != '\n';
  }

  /** A character that is neither the separator nor in any part is not in the join. */
  lemma {:induction false} JoinAvoids(parts: seq<string>, sep: char, c: char)
    requires c != sep
    requires forall k :: 0 <= k < |parts| ==> c !in parts[k]
    ensures c !in Join(parts, sep)
  {
    if |parts| > 1 {
      JoinAvoids(parts[1..], sep, c);
    }
  }

  lemma JoinIsPlain(parts: seq<string>, sep: char)
    requires sep != '\t' && sep != '\n'
    requires forall k :: 0 <= k < |parts| ==> Plain(parts[k])
    ensures Plain(Join(parts, sep))
  {
    JoinAvoids(parts, sep, '\t');
    JoinAvoids(parts, sep, '\n');
  }

  lemma {:induction false} JoinContains(parts: seq<string>, sep: char, k: nat, i: nat)
    requires k < |parts| && i < |parts[k]|
    ensures parts[k][i] in Join(parts, sep)
  {
    if k > 0 {
      JoinContains(parts[1..], sep, k - 1, i);
    } else if |parts| > 1 {
      assert Join(parts, sep)[i] == parts[0][i];
    }
  }

  /** A line with a non-whitespace character survives the blank-line filter. */
  lemma NotBlank(s: string, c: char)
    requires c in s && !IsWhitespace(c)
    ensures !IsBlank(s)
  {
    TrimEmptyIffAllWhitespace(s);
  }

  lemma CoordinateIsPlain(city: string, latitude: bool)
    ensures Plain(CoordinateText(city, latitude))
  {
    Cities.TableWellFormed();
    if Cities.Find(city).Some? {
      var c := Cities.Find(city).value;
      var d := if latitude then c.latitude else c.longitude;
      DigitsArePlain(ShowNat(d.whole));
      DigitsArePlain(d.frac);
    }
  }

  lemma IntIsPlain(n: int)
    ensures Plain(ShowInt(n))
  {
    DigitsArePlain(ShowNat(if n < 0 then -n else n));
  }

  lemma AuthorIsPlain(p: AuthorPick)
    ensures Plain(AuthorName(p)) && Plain(AuthorEmail(p)) && Plain(AvatarUrl(p)) && Plain(AuthorType(p))
  {
    var name, email := ShowNat(p.nameNo), ShowNat(p.emailNo);
    DigitsArePlain(name);
    DigitsArePlain(email);
    PlainConcat("User ", name);
    PlainConcat("user", email);
    PlainConcat("user" + email, "@example.com");
    PlainConcat("https://api.example.com/avatars/user_", name);
    PlainConcat("https://api.example.com/avatars/user_" + name, ".jpg");
  }

  lemma PlainConcat(a: string, b: string)
    requires Plain(a) && Plain(b)
    ensures Plain(a + b)
  {
  }

  /** Every value on a generated line stays inside its cell. */
  lemma FieldsArePlain(o: GeneratedOffer, p: AuthorPick, latitude: string, longitude: string)
    requires PlainText(o) && Plain(o.city) && Plain(latitude) && Plain(longitude)
    ensures forall k :: 0 <= k < |Headers| ==> Plain(RowFields(o, p, latitude, longitude)[k])
  {
    JoinIsPlain(o.images, ',');
    JoinIsPlain(o.amenities, ',');
    AuthorIsPlain(p);
    DigitsArePlain(ShowNat(o.commentCount));
    IntIsPlain(o.bedrooms);
    IntIsPlain(o.guests);
    IntIsPlain(o.price);
  }

  /** The header binds each of its 21 names to the cell under it. */
  lemma RowDataOfHeaders(values: seq<string>)
    requires |values| == |Headers|
    ensures forall i :: 0 <= i < |Headers| ==>
      (Headers[i] in RowData(Headers, values) && RowData(Headers, values)[Headers[i]] == values[i])
  {
    HeadersDistinct();
    forall i | 0 <= i < |Headers|
      ensures RowData(Headers, values)[Headers[i]] == values[i]
    {
      assert Headers[i] !in Headers[i + 1..];
      RowDataLastWins(Headers, values, i);
    }
  }

  /** `parseFloat` of a table coordinate's text is the coordinate. */
  lemma CoordinateReadBack(city: string, latitude: bool)
    requires Cities.Find(city).Some?
    ensures var c := Cities.Find(city).value;
      ParseFloat(CoordinateText(city, latitude)) == Fin(if latitude then c.latitude.Value() else c.longitude.Value())
  {
    Cities.TableWellFormed();
    var c := Cities.Find(city).value;
    var d := if latitude then c.latitude else c.longitude;
    ParseFloatOfDecimal(d.whole, d.frac);
  }

  lemma IntReadBack(n: int)
    ensures ParseInt(ShowInt(n)) == Fin(n as real)
  {
    ParseIntOfShowInt("", n, "");
    assert "" + ShowInt(n) + "" == ShowInt(n);
  }

  /** The column each header name stands in. */
  lemma HeaderNames()
    ensures Headers[0] == "title"
      && Headers[1] == "description"
      && Headers[2] == "date"
      && Headers[3] == "city"
      && Headers[4] == "preview"
      && Headers[5] == "images"
      && Headers[6] == "isPremium"
      && Headers[7] == "isFavorite"
      && Headers[8] == "rating"
      && Headers[9] == "type"
      && Headers[10] == "bedrooms"
      && Headers[11] == "guests"
      && Headers[12] == "price"
      && Headers[13] == "amenities"
      && Headers[14] == "authorName"
      && Headers[15] == "authorEmail"
      && Headers[16] == "authorAvatar"
      && Headers[17] == "authorType"
      && Headers[18] == "latitude"
      && Headers[19] == "longitude"
      && Headers[20] == "commentCount"
  {
  }

  /** Each header name finds the cell under it. */
  lemma HeaderFields(values: seq<string>)
    requires |values| == |Headers|
    ensures var row := RowData(Headers, values);
      && Property(row, "title") == Some(values[0])
      && Property(row, "description") == Some(values[1])
      && Property(row, "date") == Some(values[2])
      && Property(row, "city") == Some(values[3])
      && Property(row, "preview") == Some(values[4])
      && Property(row, "images") == Some(values[5])
      && Property(row, "isPremium") == Some(values[6])
      && Property(row, "isFavorite") == Some(values[7])
      && Property(row, "rating") == Some(values[8])
      && Property(row, "type") == Some(values[9])
      && Property(row, "bedrooms") == Some(values[10])
      && Property(row, "guests") == Some(values[11])
      && Property(row, "price") == Some(values[12])
      && Property(row, "amenities") == Some(values[13])
      && Property(row, "authorName") == Some(values[14])
      && Property(row, "authorEmail") == Some(values[15])
      && Property(row, "authorAvatar") == Some(values[16])
      && Property(row, "authorType") == Some(values[17])
      && Property(row, "latitude") == Some(values[18])
      && Property(row, "longitude") == Some(values[19])
      && Property(row, "commentCount") == Some(values[20])
  {
    RowDataOfHeaders(values);
    HeaderNames();
  }

  /** The record `row` binds each column to the text the generator writes for it. */
  predicate GeneratedRow(row: map<string, string>, o: GeneratedOffer, p: AuthorPick, latitude: string, longitude: string) {
    && Property(row, "title") == Some(o.title)
    && Property(row, "description") == Some(o.description)
    && Property(row, "date") == Some(o.date)
    && Property(row, "city") == Some(o.city)
    && Property(row, "preview") == Some(o.preview)
    && Property(row, "images") == Some(Join(o.images, ','))
    && Property(row, "isPremium") == Some(ShowBool(o.isPremium))
    && Property(row, "isFavorite") == Some(ShowBool(o.isFavorite))
    && Property(row, "rating") == Some(o.rating)
    && Property(row, "type") == Some(o.housingType)
    && Property(row, "bedrooms") == Some(ShowInt(o.bedrooms))
    && Property(row, "guests") == Some(ShowInt(o.guests))
    && Property(row, "price") == Some(ShowInt(o.price))
    && Property(row, "amenities") == Some(Join(o.amenities, ','))
    && Property(row, "authorName") == Some(AuthorName(p))
    && Property(row, "authorEmail") == Some(AuthorEmail(p))
    && Property(row, "authorAvatar") == Some(AvatarUrl(p))
    && Property(row, "authorType") == Some(AuthorType(p))
    && Property(row, "latitude") == Some(latitude)
    && Property(row, "longitude") == Some(longitude)
    && Property(row, "commentCount") == Some(ShowNat(o.commentCount))
  }

  /** The record the reader builds from a generated line binds each column to its value. */
  lemma GeneratedRowData(o: GeneratedOffer, p: AuthorPick, latitude: string, longitude: string)
    ensures GeneratedRow(RowData(Headers, RowFields(o, p, latitude, longitude)), o, p, latitude, longitude)
  {
    HeaderFields(RowFields(o, p, latitude, longitude));
  }

  /** The strict parser accepts a generated line of a table city. */
  lemma GeneratedRowAccepted(o: GeneratedOffer, p: AuthorPick, latitude: string, longitude: string)
    requires Cities.Find(o.city).Some?
    ensures var row := RowData(Headers, RowFields(o, p, latitude, longitude));
      && "images" in row && "amenities" in row && "city" in row && row["city"] == o.city
      && ParseOfferRow(Headers, RowFields(o, p, latitude, longitude))
         == Ok(BuildOffer(row, Cities.Find(o.city).value))
  {
    var fields := RowFields(o, p, latitude, longitude);
    RowDataOfHeaders(fields);
    HeaderNames();
    assert Property(RowData(Headers, fields), "city") == Some(fields[3]);
    ParseOfferRowAccepts(Headers, fields, o.city);
  }

  /** The texts the reader falls back from when empty never are. */
  lemma GeneratedTextsNonEmpty(o: GeneratedOffer, p: AuthorPick)
    ensures ShowNat(o.commentCount) != ""
    ensures AuthorName(p) != "" && AuthorEmail(p) != "" && AvatarUrl(p) != "" && AuthorType(p) != ""
  {
    assert |AuthorName(p)| == 5 + |ShowNat(p.nameNo)|;
    assert |AuthorEmail(p)| == 16 + |ShowNat(p.emailNo)|;
    assert |AvatarUrl(p)| == 41 + |ShowNat(p.nameNo)|;
  }

  /** The text columns of a generated line read back as written. */
  lemma BuildTexts(row: map<string, string>, o: GeneratedOffer, p: AuthorPick, latitude: string, longitude: string, c: Cities.City)
    requires GeneratedRow(row, o, p, latitude, longitude)
    requires Cities.Find(o.city) == Some(c)
    requires ParseFloat(latitude) == Fin(c.latitude.Value())
    requires ParseFloat(longitude) == Fin(c.longitude.Value())
    requires ListTokens(o.images) && ListTokens(o.amenities)
    ensures "images" in row && "amenities" in row && "city" in row && row["city"] == c.name
    ensures var b, e := BuildOffer(row, c), Expected(o, p);
      && b.title == e.title && b.description == e.description && b.date == e.date
      && b.city == e.city && b.preview == e.preview && b.isPremium == e.isPremium
      && b.isFavorite == e.isFavorite && b.housingType == e.housingType
      && b.authorName == e.authorName && b.authorEmail == e.authorEmail
      && b.authorAvatar == e.authorAvatar && b.authorType == e.authorType
  {
    GeneratedTextsNonEmpty(o, p);
  }

  /** The list and number columns of a generated line read back as the
      generator's values, the coordinates as the table's. */
  lemma BuildValues(row: map<string, string>, o: GeneratedOffer, p: AuthorPick, latitude: string, longitude: string, c: Cities.City)
    requires GeneratedRow(row, o, p, latitude, longitude)
    requires Cities.Find(o.city) == Some(c)
    requires ParseFloat(latitude) == Fin(c.latitude.Value())
    requires ParseFloat(longitude) == Fin(c.longitude.Value())
    requires ListTokens(o.images) && ListTokens(o.amenities)
    ensures "images" in row && "amenities" in row && "city" in row && row["city"] == c.name
    ensures var b, e := BuildOffer(row, c), Expected(o, p);
      && b.images == e.images && b.amenities == e.amenities && b.rating == e.rating
      && b.bedrooms == e.bedrooms && b.guests == e.guests && b.price == e.price
      && b.latitude == e.latitude && b.longitude == e.longitude && b.commentCount == e.commentCount
  {
    Cities.PositiveCoordinates(c);
    CommaListOfJoin(o.images);
    CommaListOfJoin(o.amenities);
    IntReadBack(o.bedrooms);
    IntReadBack(o.guests);
    IntReadBack(o.price);
    IntReadBack(o.commentCount);
    GeneratedTextsNonEmpty(o, p);
  }

  /** The record built from a row holding a generated line's texts is the
      expected one, given coordinate texts that read back as the table's
      coordinates. */
  lemma BuildFromRow(row: map<string, string>, o: GeneratedOffer, p: AuthorPick, latitude: string, longitude: string, c: Cities.City)
    requires GeneratedRow(row, o, p, latitude, longitude)
    requires Cities.Find(o.city) == Some(c)
    requires ParseFloat(latitude) == Fin(c.latitude.Value())
    requires ParseFloat(longitude) == Fin(c.longitude.Value())
    requires ListTokens(o.images) && ListTokens(o.amenities)
    ensures "images" in row && "amenities" in row && "city" in row && row["city"] == c.name
    ensures BuildOffer(row, c) == Expected(o, p)
  {
    BuildTexts(row, o, p, latitude, longitude, c);
    BuildValues(row, o, p, latitude, longitude, c);
  }

  /** The strict parser reads a generated line back as the expected record,
      given coordinate texts that read back as the table's coordinates. */
  lemma ParseGeneratedRow(o: GeneratedOffer, p: AuthorPick, latitude: string, longitude: string)
    requires Writable(o)
    requires ParseFloat(latitude) == Fin(Cities.Find(o.city).value.latitude.Value())
    requires ParseFloat(longitude) == Fin(Cities.Find(o.city).value.longitude.Value())
    ensures ParseOfferRow(Headers, RowFields(o, p, latitude, longitude)) == Ok(Expected(o, p))
  {
    GeneratedRowAccepted(o, p, latitude, longitude);
    GeneratedRowData(o, p, latitude, longitude);
    BuildFromRow(RowData(Headers, RowFields(o, p, latitude, longitude)), o, p, latitude, longitude, Cities.Find(o.city).value);
  }

  /** Cells that stay inside their cells, one of them holding a visible
      character, join into one non-blank line that splits back into them. */
  lemma TabLine(cells: seq<string>, k: nat, i: nat)
    requires |cells| >= 1 && forall j :: 0 <= j < |cells| ==> Plain(cells[j])
    requires k < |cells| && i < |cells[k]| && !IsWhitespace(cells[k][i])
    ensures var line := Join(cells, '\t');
      && '\n' !in line && !IsBlank(line) && Cells(line) == cells
  {
    JoinAvoids(cells, '\t', '\n');
    SplitJoin(cells, '\t');
    JoinContains(cells, '\t', k, i);
    NotBlank(Join(cells, '\t'), cells[k][i]);
  }

  lemma HeadersArePlain()
    ensures forall k :: 0 <= k < |Headers| ==> Plain(Headers[k])
  {
    forall k | 0 <= k < |Headers|
      ensures Plain(Headers[k])
    {
      HeaderChars(k);
    }
  }

  /** Column names are made of letters only. */
  lemma HeaderChars(k: nat)
    requires k < |Headers|
    ensures forall i :: 0 <= i < |Headers[k]| ==> 'a' <= Headers[k][i] <= 'z' || 'A' <= Headers[k][i] <= 'Z'
  {
  }

  /** The header line: one line, not blank, and its cells are the column names. */
  lemma HeaderLine()
    ensures '\n' !in Join(Headers, '\t') && !IsBlank(Join(Headers, '\t'))
    ensures Cells(Join(Headers, '\t')) == Headers
  {
    HeadersArePlain();
    assert Headers[0][0] == 't';
    TabLine(Headers, 0, 0);
  }

  /** A generated offer line: one line, not blank, and its cells are the
      generated fields. */
  lemma OfferLine(o: GeneratedOffer, p: AuthorPick, latitude: string, longitude: string)
    requires PlainText(o) && Plain(latitude) && Plain(longitude)
    requires o.city != "" && !IsWhitespace(o.city[0]) && Plain(o.city)
    ensures var line := Join(RowFields(o, p, latitude, longitude), '\t');
      && '\n' !in line && !IsBlank(line)
      && Cells(line) == RowFields(o, p, latitude, longitude)
  {
    FieldsArePlain(o, p, latitude, longitude);
    TabLine(RowFields(o, p, latitude, longitude), 3, 0);
  }

  /** The line of a writable offer is one non-blank line whose cells are its fields. */
  lemma RowLineShape(o: GeneratedOffer, p: AuthorPick)
    requires Writable(o)
    ensures '\n' !in RowLine(o, p) && !IsBlank(RowLine(o, p))
    ensures Cells(RowLine(o, p)) == RowFields(o, p, CoordinateText(o.city, true), CoordinateText(o.city, false))
  {
    CoordinateIsPlain(o.city, true);
    CoordinateIsPlain(o.city, false);
    var c := Cities.Find(o.city).value;
    assert c.name == o.city && Cities.WellFormed(c);
    OfferLine(o, p, CoordinateText(o.city, true), CoordinateText(o.city, false));
  }

  /** The strict reader reads the line of a writable offer back as the expected record. */
  lemma RowLineReadBack(o: GeneratedOffer, p: AuthorPick)
    requires Writable(o)
    ensures ParseOfferRow(Headers, Cells(RowLine(o, p))) == Ok(Expected(o, p))
  {
    RowLineShape(o, p);
    CoordinateReadBack(o.city, true);
    CoordinateReadBack(o.city, false);
    ParseGeneratedRow(o, p, CoordinateText(o.city, true), CoordinateText(o.city, false));
  }

  /** A first line and more lines, all free of newlines and blanks, survive
      joining, splitting and the blank filter. */
  lemma NonBlankLinesOfJoin(first: string, rest: seq<string>)
    requires '\n' !in first && !IsBlank(first)
    requires forall k :: 0 <= k < |rest| ==> '\n' !in rest[k] && !IsBlank(rest[k])
    ensures NonBlankLines(Join([first] + rest, '\n')) == [first] + rest
  {
    var lines := [first] + rest;
    forall k | 0 <= k < |lines|
      ensures '\n' !in lines[k] && !IsBlank(lines[k])
    {
      if k > 0 {
        assert lines[k] == rest[k - 1];
      }
    }
    SplitJoin(lines, '\n');
    DropBlankKeepsNonBlank(lines);
    assert NonBlankLines(Join(lines, '\n')) == DropBlank(Split(Join(lines, '\n'), '\n'));
  }

  /** Every offer line is one non-blank line. */
  lemma OfferLinesShape(offers: seq<GeneratedOffer>, picks: seq<AuthorPick>)
    requires |picks| == |offers|
    requires AllWritable(offers)
    ensures forall k :: 0 <= k < |offers| ==> '\n' !in Lines(offers, picks)[k] && !IsBlank(Lines(offers, picks)[k])
  {
    forall k | 0 <= k < |offers|
      ensures '\n' !in Lines(offers, picks)[k] && !IsBlank(Lines(offers, picks)[k])
    {
      RowLineShape(offers[k], picks[k]);
    }
  }

  /** The non-blank lines of a generated file are its header line and one line per offer. */
  lemma GeneratedLines(offers: seq<GeneratedOffer>, picks: seq<AuthorPick>)
    requires |picks| == |offers|
    requires AllWritable(offers)
    ensures NonBlankLines(GenerateTsv(offers, picks)) == [Join(Headers, '\t')] + Lines(offers, picks)
  {
    HeaderLine();
    OfferLinesShape(offers, picks);
    NonBlankLinesOfJoin(Join(Headers, '\t'), Lines(offers, picks));
  }

  /** The records the strict reader makes of the generated lines, in order. */
  function ExpectedAll(offers: seq<GeneratedOffer>, picks: seq<AuthorPick>): (records: seq<ParsedOffer>)
    requires |picks| == |offers|
    requires AllWritable(offers)
    ensures |records| == |offers|
    ensures forall i :: 0 <= i < |offers| ==> records[i] == Expected(offers[i], picks[i])
  {
    seq(|offers|, i requires 0 <= i < |offers| => Expected(offers[i], picks[i]))
  }

  /** `generateTSV` then `readTSV`: a file of at least one writable offer reads
      back as the expected records, in order; a file of none has no data rows. */
  lemma GenerateThenRead(offers: seq<GeneratedOffer>, picks: seq<AuthorPick>)
    requires |picks| == |offers|
    requires AllWritable(offers)
    ensures |offers| == 0 ==> ReadTsv(Some(GenerateTsv(offers, picks))) == Err(NoDataRows)
    ensures |offers| > 0 ==> ReadTsv(Some(GenerateTsv(offers, picks))) == Ok(ExpectedAll(offers, picks))
  {
    GeneratedLines(offers, picks);
    if |offers| > 0 {
      HeaderLine();
      LinesReadBack(offers, picks);
      ReadRowsOfRecords(Headers, Lines(offers, picks), ExpectedAll(offers, picks));
      ReadLinesOfHeader(Join(Headers, '\t'), Lines(offers, picks));
    }
  }

  /** Every offer line reads back as its expected record. */
  lemma LinesReadBack(offers: seq<GeneratedOffer>, picks: seq<AuthorPick>)
    requires |picks| == |offers|
    requires AllWritable(offers)
    ensures forall i :: 0 <= i < |offers| ==>
      ParseOfferRow(Headers, Cells(Lines(offers, picks)[i])) == Ok(ExpectedAll(offers, picks)[i])
  {
    forall i | 0 <= i < |offers|
      ensures ParseOfferRow(Headers, Cells(Lines(offers, picks)[i])) == Ok(ExpectedAll(offers, picks)[i])
    {
      RowLineReadBack(offers[i], picks[i]);
    }
  }
}
