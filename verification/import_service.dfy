/** `ImportService.importOffers` (`src/cli/import.service.ts`): a sequential
    find-or-create loop over the store, one try/catch per row, counters for
    imported and skipped rows, and a disconnect that always runs. */
module ImportService {
  import opened Results
  import opened Numbers
  import opened TsvReader
  import opened Entities

  /** Whether `new Date(text)` is a valid date. Date parsing is left to the caller. */
  type DateCheck = string -> bool

  /** `new Date(offerData.date)`: an invalid date (or `undefined`) is `None`. */
  function ToDate(validDate: DateCheck, text: Option<string>): Option<string> {
    if text.Some? && validDate(text.value) then text else None
  }

  /** A row as every successful `parseOfferRow` leaves it: a non-empty city name and usable coordinates. */
  predicate WellFormedRow(row: ParsedOffer) {
    row.city != "" && !row.latitude.NaN? && !row.longitude.NaN?
  }

  function RowCoordinates(row: ParsedOffer): Coordinates {
    Coordinates(row.latitude, row.longitude)
  }

  /** The city the loop creates for a row it has no city for: the row's own coordinates. */
  function RowCity(row: ParsedOffer): CityData {
    CityData(row.city, RowCoordinates(row))
  }

  /** The user the loop creates for a row whose author email is new. */
  function RowUser(row: ParsedOffer): UserData {
    UserData(row.authorName, row.authorEmail, row.authorAvatar, row.authorType)
  }

  /** The offer the loop creates: the row's fields, the resolved author, the
      row's coordinates (not the stored city's), and its comment count. */
  function RowOffer(row: ParsedOffer, authorId: nat, validDate: DateCheck): OfferData {
    OfferData(row.title, row.description, ToDate(validDate, row.date), row.city, row.preview,
      row.images, row.isPremium, row.isFavorite, row.rating, row.housingType, row.bedrooms,
      row.guests, row.price, row.amenities, authorId, RowCoordinates(row), Some(row.commentCount))
  }

  /** The offer created for a row carries the row's fields unchanged, except that
      the date is dropped when it is not a valid date, the author is the resolved
      id, and the coordinates are nested. */
  lemma RowOfferCarriesRow(row: ParsedOffer, authorId: nat, validDate: DateCheck)
    ensures var d := RowOffer(row, authorId, validDate);
      && (d.date.Some? <==> row.date.Some? && validDate(row.date.value))
      && (d.date.Some? ==> d.date == row.date)
      && d.authorId == authorId && d.commentCount == Some(row.commentCount)
      && d.coordinates.latitude == row.latitude && d.coordinates.longitude == row.longitude
      && d.city == row.city && d.images == row.images && d.amenities == row.amenities
      && d.title == row.title && d.description == row.description && d.preview == row.preview
      && d.isPremium == row.isPremium && d.isFavorite == row.isFavorite && d.housingType == row.housingType
      && d.rating == row.rating && d.bedrooms == row.bedrooms && d.guests == row.guests && d.price == row.price
  {
  }

  /** Whether the offer part of a row passes the schema (it does not depend on the author id). */
  predicate RowOfferValid(row: ParsedOffer, validDate: DateCheck) {
    OfferDataValid(RowOffer(row, 0, validDate))
  }

  /** `findByName` then, when absent, `create` with the row's coordinates. */
  function ResolveCity(s: Store, row: ParsedOffer): (r: Result<Store, StoreError>)
    ensures WellFormedRow(row) ==> r.Ok?
    ensures r.Ok? <==> row.city in s.cities || CityDataValid(RowCity(row))
    ensures r.Ok? ==> (row.city in r.value.cities && r.value.users == s.users
      && r.value.offers == s.offers && r.value.nextId == s.nextId)
    ensures r.Ok? && row.city in s.cities ==> r.value == s
    ensures r.Ok? && row.city !in s.cities ==>
      r.value.cities == s.cities[row.city := City(row.city, RowCoordinates(row))]
  {
    match FindCityByName(s, row.city)
    case Some(_) => Ok(s)
    case None =>
      match CreateCity(s, RowCity(row))
      case Ok((s', _)) => Ok(s')
      case Err(e) => Err(e)
  }

  /** `findByEmail` then, when absent, `create` from the row's author fields. */
  function ResolveUser(s: Store, row: ParsedOffer): (r: Result<(Store, User), StoreError>)
    ensures r.Ok? <==> row.authorEmail in s.users || UserDataValid(RowUser(row))
    ensures r.Ok? ==> var (s', u) := r.value;
      && row.authorEmail in s'.users && s'.users[row.authorEmail] == u
      && s'.cities == s.cities && s'.offers == s.offers
    ensures r.Ok? && row.authorEmail in s.users ==> r.value == (s, s.users[row.authorEmail])
    ensures r.Ok? && row.authorEmail !in s.users ==> var u := r.value.1;
      && u.id == s.nextId && u.name == row.authorName && u.avatar == row.authorAvatar
      && Some(u.userType) == ParseUserType(row.authorType)
      && r.value.0 == s.(users := s.users[row.authorEmail := u], nextId := s.nextId + 1)
  {
    match FindUserByEmail(s, row.authorEmail)
    case Some(u) => Ok((s, u))
    case None => CreateUser(s, RowUser(row))
  }

  /** One pass of the loop body for `row`: the store after it (nothing is rolled
      back when a later stage fails) and whether the row counts as imported. */
  function ImportRow(s: Store, row: ParsedOffer, validDate: DateCheck): (r: (Store, bool))
    ensures r.1 <==> ((row.city in s.cities || CityDataValid(RowCity(row)))
      && (row.authorEmail in s.users || UserDataValid(RowUser(row)))
      && RowOfferValid(row, validDate))
    ensures r.1 ==> |r.0.offers| == |s.offers| + 1 && r.0.offers[..|s.offers|] == s.offers
    ensures !r.1 ==> r.0.offers == s.offers
  {
    match ResolveCity(s, row)
    case Err(_) => (s, false)
    case Ok(s1) =>
      match ResolveUser(s1, row)
      case Err(_) => (s1, false)
      case Ok((s2, u)) =>
        assert OfferDataValid(RowOffer(row, u.id, validDate)) == RowOfferValid(row, validDate);
        match CreateOffer(s2, RowOffer(row, u.id, validDate))
        case Err(_) => (s2, false)
        case Ok((s3, _)) => (s3, true)
  }

  datatype ImportState = ImportState(store: Store, imported: nat, skipped: nat)

  /** The counters and store after the rows seen so far, with `row` added. */
  function Step(st: ImportState, row: ParsedOffer, validDate: DateCheck): ImportState {
    var (s, ok) := ImportRow(st.store, row, validDate);
    if ok then ImportState(s, st.imported + 1, st.skipped)
    else ImportState(s, st.imported, st.skipped + 1)
  }

  /** The loop over `rows` in order, starting from `s0` with both counters at 0. */
  function Run(s0: Store, rows: seq<ParsedOffer>, validDate: DateCheck): (st: ImportState)
    ensures st.imported + st.skipped == |rows|
    ensures |st.store.offers| == |s0.offers| + st.imported
    ensures st.store.offers[..|s0.offers|] == s0.offers
    decreases |rows|
  {
    if |rows| == 0 then ImportState(s0, 0, 0)
    else
      var prev := Run(s0, rows[..|rows| - 1], validDate);
      var st := Step(prev, rows[|rows| - 1], validDate);
      assert st.store.offers[..|prev.store.offers|] == prev.store.offers;
      assert st.store.offers[..|s0.offers|] == prev.store.offers[..|s0.offers|];
      st
  }

  datatype ImportError = ConnectFailed | DisconnectFailed
  datatype ImportOutcome = Finished(imported: nat, skipped: nat) | Failed(error: ImportError)

  /** `importOffers`. The connection's outcomes are inputs: `connectOk` says
      whether `connect` succeeds and `disconnectOk` whether `disconnect` does.
      `disconnects` counts the calls to `disconnect`, made in `finally`. */
  method ImportOffers(store: Store, offers: seq<ParsedOffer>, connectOk: bool, disconnectOk: bool, validDate: DateCheck)
    returns (outcome: ImportOutcome, result: Store, disconnects: nat)
    ensures disconnects == 1
    ensures !connectOk ==> result == store
    ensures connectOk ==> result == Run(store, offers, validDate).store
    ensures outcome.Finished? <==> connectOk && disconnectOk
    ensures outcome.Finished? ==> (outcome.imported + outcome.skipped == |offers|
      && outcome.imported == Run(store, offers, validDate).imported
      && |result.offers| == |store.offers| + outcome.imported)
    ensures outcome.Failed? ==> outcome.error == if disconnectOk then ConnectFailed else DisconnectFailed
  {
    disconnects := 0;
    result := store;
    var failure: Option<ImportError> := None;
    if !connectOk {
      failure := Some(ConnectFailed);
    } else {
      var importedCount := 0;
      var skippedCount := 0;
      var i := 0;
      while i < |offers|
        invariant 0 <= i <= |offers|
        invariant ImportState(result, importedCount, skippedCount) == Run(store, offers[..i], validDate)
      {
        RunPrefixStep(store, offers, i, validDate);
        var (next, ok) := ImportRow(result, offers[i], validDate);
        result := next;
        if ok {
          importedCount := importedCount + 1;
        } else {
          skippedCount := skippedCount + 1;
        }
        i := i + 1;
      }
      assert offers[..|offers|] == offers;
      outcome := Finished(importedCount, skippedCount);
    }
    // finally
    disconnects := disconnects + 1;
    if !disconnectOk {
      failure := Some(DisconnectFailed);
    }
    if failure.Some? {
      outcome := Failed(failure.value);
    }
  }

  /** The user `create` makes from a row's author fields under id `id`. */
  function RowUserRecord(id: nat, row: ParsedOffer): User
    requires UserDataValid(RowUser(row))
  {
    User(id, row.authorName, row.authorEmail, row.authorAvatar, ParseUserType(row.authorType).value)
  }

  /** A stored city for the row's name exists, or the row's own data can create it. */
  predicate CityResolves(s: Store, row: ParsedOffer) {
    row.city in s.cities || CityDataValid(RowCity(row))
  }

  /** What one row does to the store: a city and a user are created only when
      their key is absent (and are kept even when a later stage of the row
      fails); the offer, when created, carries the resolved user's id and the
      row's own coordinates. */
  lemma ImportRowEffects(s: Store, row: ParsedOffer, validDate: DateCheck)
    ensures var s' := ImportRow(s, row, validDate).0;
      && s'.cities == (if !CityResolves(s, row) || row.city in s.cities then s.cities
                       else s.cities[row.city := City(row.city, RowCoordinates(row))])
      && s'.users == (if !CityResolves(s, row) || row.authorEmail in s.users || !UserDataValid(RowUser(row)) then s.users
                      else s.users[row.authorEmail := RowUserRecord(s.nextId, row)])
      && s'.nextId == (if !CityResolves(s, row) || row.authorEmail in s.users || !UserDataValid(RowUser(row)) then s.nextId
                       else s.nextId + 1)
    ensures var (s', ok) := ImportRow(s, row, validDate);
      ok ==> (&& row.authorEmail in s'.users
              && var o := s'.offers[|s.offers|];
              && o.authorId == s'.users[row.authorEmail].id
              && o.coordinates == RowCoordinates(row)
              && o.city == row.city
              && Some(o.date) == ToDate(validDate, row.date)
              && o.images == row.images && o.amenities == row.amenities
              && o.commentCount == row.commentCount)
  {
    var c := ResolveCity(s, row);
    if c.Ok? {
      var u := ResolveUser(c.value, row);
      if u.Ok? {
        var (s2, user) := u.value;
        if row.authorEmail !in s.users {
          assert user == RowUserRecord(s.nextId, row);
        }
        ImportRowOffer(s2, row, user, validDate);
        assert ImportRow(s, row, validDate) == OfferStage(s2, row, user, validDate);
      } else {
        assert ImportRow(s, row, validDate) == (c.value, false);
      }
    } else {
      assert ImportRow(s, row, validDate) == (s, false);
    }
  }

  /** The last stage of the loop body: `create` the offer for the resolved author. */
  function OfferStage(s2: Store, row: ParsedOffer, user: User, validDate: DateCheck): (Store, bool) {
    match CreateOffer(s2, RowOffer(row, user.id, validDate))
    case Err(_) => (s2, false)
    case Ok((s3, _)) => (s3, true)
  }

  /** The offer stage adds one offer with the author's id and the row's fields, and touches nothing else. */
  lemma ImportRowOffer(s2: Store, row: ParsedOffer, user: User, validDate: DateCheck)
    ensures var (s3, ok) := OfferStage(s2, row, user, validDate);
      && s3.cities == s2.cities && s3.users == s2.users && s3.nextId == s2.nextId
      && (ok ==> (&& |s3.offers| == |s2.offers| + 1
                  && var o := s3.offers[|s2.offers|];
                  && o.authorId == user.id
                  && o.coordinates == RowCoordinates(row)
                  && o.city == row.city
                  && Some(o.date) == ToDate(validDate, row.date)
                  && o.images == row.images && o.amenities == row.amenities
                  && o.commentCount == row.commentCount))
  {
    var o := CreateOffer(s2, RowOffer(row, user.id, validDate));
    if o.Ok? {
      assert o.value.0.offers[|s2.offers|] == o.value.1;
    }
  }

  /** The cities one well-formed row leaves: its city is added when absent. */
  lemma ImportRowCities(s: Store, row: ParsedOffer, validDate: DateCheck)
    requires WellFormedRow(row)
    ensures ImportRow(s, row, validDate).0.cities
      == if row.city in s.cities then s.cities else s.cities[row.city := City(row.city, RowCoordinates(row))]
  {
    ImportRowEffects(s, row, validDate);
  }

  /** A row that fails after creating its city or user leaves them stored. */
  lemma FailedRowKeepsCreated(s: Store, row: ParsedOffer, validDate: DateCheck)
    requires !ImportRow(s, row, validDate).1
    requires row.city !in s.cities && CityDataValid(RowCity(row))
    ensures row.city in ImportRow(s, row, validDate).0.cities
    ensures UserDataValid(RowUser(row)) ==> row.authorEmail in ImportRow(s, row, validDate).0.users
    ensures ImportRow(s, row, validDate).0.offers == s.offers
  {
    ImportRowEffects(s, row, validDate);
  }

  /** One row keeps the unique-key invariant and every offer's author reference. */
  lemma ImportRowPreservesValid(s: Store, row: ParsedOffer, validDate: DateCheck)
    requires Valid(s) && AuthorsExist(s)
    ensures Valid(ImportRow(s, row, validDate).0) && AuthorsExist(ImportRow(s, row, validDate).0)
  {
    var c := ResolveCity(s, row);
    if c.Ok? {
      ResolveCityPreservesValid(s, row);
      var u := ResolveUser(c.value, row);
      if u.Ok? {
        ResolveUserPreservesValid(c.value, row);
        var (s2, user) := u.value;
        OfferStagePreservesValid(s2, row, user, validDate);
        assert ImportRow(s, row, validDate) == OfferStage(s2, row, user, validDate);
      }
    }
  }

  lemma ResolveCityPreservesValid(s: Store, row: ParsedOffer)
    requires Valid(s) && AuthorsExist(s) && ResolveCity(s, row).Ok?
    ensures Valid(ResolveCity(s, row).value) && AuthorsExist(ResolveCity(s, row).value)
  {
    if row.city !in s.cities {
      CreateCityPreservesValid(s, RowCity(row));
    }
  }

  lemma ResolveUserPreservesValid(s: Store, row: ParsedOffer)
    requires Valid(s) && AuthorsExist(s) && ResolveUser(s, row).Ok?
    ensures Valid(ResolveUser(s, row).value.0) && AuthorsExist(ResolveUser(s, row).value.0)
  {
    if row.authorEmail !in s.users {
      CreateUserPreservesValid(s, RowUser(row));
    }
  }

  /** The offer stage keeps the invariant when its author is a stored user. */
  lemma OfferStagePreservesValid(s2: Store, row: ParsedOffer, user: User, validDate: DateCheck)
    requires Valid(s2) && AuthorsExist(s2)
    requires row.authorEmail in s2.users && s2.users[row.authorEmail] == user
    ensures Valid(OfferStage(s2, row, user, validDate).0) && AuthorsExist(OfferStage(s2, row, user, validDate).0)
  {
    var (s3, ok) := OfferStage(s2, row, user, validDate);
    ImportRowOffer(s2, row, user, validDate);
    if ok {
      var o := CreateOffer(s2, RowOffer(row, user.id, validDate)).value;
      assert s3 == o.0 && o.0.offers == s2.offers + [o.1];
      forall k | 0 <= k < |s3.offers|
        ensures HasUser(s3.users, s3.offers[k].authorId)
      {
        if k < |s2.offers| {
          assert s3.offers[k] == s2.offers[k];
        } else {
          assert s3.users[row.authorEmail].id == s3.offers[k].authorId;
        }
      }
    }
  }

  /** One more row of the loop is one more `Step`. */
  lemma RunPrefixStep(s0: Store, rows: seq<ParsedOffer>, i: nat, validDate: DateCheck)
    requires i < |rows|
    ensures Run(s0, rows[..i + 1], validDate) == Step(Run(s0, rows[..i], validDate), rows[i], validDate)
  {
    assert rows[..i + 1][..i] == rows[..i];
  }

  /** The last step of `Run`, unfolded. */
  lemma RunLast(s0: Store, rows: seq<ParsedOffer>, validDate: DateCheck)
    requires |rows| > 0
    ensures Run(s0, rows, validDate).store
      == ImportRow(Run(s0, rows[..|rows| - 1], validDate).store, rows[|rows| - 1], validDate).0
  {
  }

  lemma {:induction false} RunPreservesValid(s0: Store, rows: seq<ParsedOffer>, validDate: DateCheck)
    requires Valid(s0) && AuthorsExist(s0)
    ensures Valid(Run(s0, rows, validDate).store) && AuthorsExist(Run(s0, rows, validDate).store)
    decreases |rows|
  {
    if |rows| > 0 {
      var n := |rows| - 1;
      RunPreservesValid(s0, rows[..n], validDate);
      ImportRowPreservesValid(Run(s0, rows[..n], validDate).store, rows[n], validDate);
    }
  }

  /** The names of the cities the rows mention. */
  function CityNames(rows: seq<ParsedOffer>): set<string> {
    set r | r in rows :: r.city
  }

  /** Row `k` is the first to mention its city. */
  predicate FirstCityRow(rows: seq<ParsedOffer>, k: nat)
    requires k < |rows|
  {
    forall j :: 0 <= j < k ==> rows[j].city != rows[k].city
  }

  /** Across the loop, over rows `parseOfferRow` accepted: the stored cities are
      the old ones, unchanged, plus one per name the rows mention. */
  lemma {:induction false} RunCityNames(s0: Store, rows: seq<ParsedOffer>, validDate: DateCheck)
    requires forall k :: 0 <= k < |rows| ==> WellFormedRow(rows[k])
    ensures var cities := Run(s0, rows, validDate).store.cities;
      && cities.Keys == s0.cities.Keys + CityNames(rows)
      && (forall n :: n in s0.cities ==> cities[n] == s0.cities[n])
    decreases |rows|
  {
    if |rows| > 0 {
      var n := |rows| - 1;
      var prefix, last := rows[..n], rows[n];
      assert rows == prefix + [last];
      RunCityNames(s0, prefix, validDate);
      RunLast(s0, rows, validDate);
      CityNamesStep(s0.cities, Run(s0, prefix, validDate).store, prefix, last, validDate);
    }
  }

  /** One more row keeps the old cities and adds the row's city name. */
  lemma CityNamesStep(initial: map<string, City>, mid: Store, prefix: seq<ParsedOffer>, last: ParsedOffer, validDate: DateCheck)
    requires WellFormedRow(last)
    requires mid.cities.Keys == initial.Keys + CityNames(prefix)
    requires forall n :: n in initial ==> mid.cities[n] == initial[n]
    ensures var cities := ImportRow(mid, last, validDate).0.cities;
      && cities.Keys == initial.Keys + CityNames(prefix + [last])
      && (forall n :: n in initial ==> cities[n] == initial[n])
  {
    ImportRowCities(mid, last, validDate);
    CityNamesSnoc(prefix, last);
  }

  lemma CityNamesSnoc(rows: seq<ParsedOffer>, last: ParsedOffer)
    ensures CityNames(rows + [last]) == CityNames(rows) + {last.city}
  {
    assert forall r :: r in rows + [last] <==> r in rows || r == last;
  }

  /** A city new to the store holds the coordinates of the first row that names it. */
  lemma {:induction false} RunCityFirstRow(s0: Store, rows: seq<ParsedOffer>, validDate: DateCheck, k: nat)
    requires forall k :: 0 <= k < |rows| ==> WellFormedRow(rows[k])
    requires k < |rows| && rows[k].city !in s0.cities && FirstCityRow(rows, k)
    ensures var cities := Run(s0, rows, validDate).store.cities;
      rows[k].city in cities && cities[rows[k].city] == City(rows[k].city, RowCoordinates(rows[k]))
    decreases |rows|, 1
  {
    if k + 1 < |rows| {
      RunCityEarlierRow(s0, rows, validDate, k);
    } else {
      RunCityLastRow(s0, rows, validDate);
    }
  }

  /** The city of an earlier first row survives the last row. */
  lemma {:induction false} RunCityEarlierRow(s0: Store, rows: seq<ParsedOffer>, validDate: DateCheck, k: nat)
    requires forall k :: 0 <= k < |rows| ==> WellFormedRow(rows[k])
    requires k + 1 < |rows| && rows[k].city !in s0.cities && FirstCityRow(rows, k)
    ensures CityFromRow(Run(s0, rows, validDate).store.cities, rows[k])
    decreases |rows|, 0
  {
    var prefix := rows[..|rows| - 1];
    RunLast(s0, rows, validDate);
    FirstCityRowPrefix(rows, k);
    RunCityFirstRow(s0, prefix, validDate, k);
    CityKept(Run(s0, prefix, validDate).store, rows[|rows| - 1], validDate, rows[k]);
  }

  /** The last row, when it is the first to name its city, creates that city. */
  lemma RunCityLastRow(s0: Store, rows: seq<ParsedOffer>, validDate: DateCheck)
    requires forall k :: 0 <= k < |rows| ==> WellFormedRow(rows[k])
    requires |rows| > 0 && rows[|rows| - 1].city !in s0.cities && FirstCityRow(rows, |rows| - 1)
    ensures CityFromRow(Run(s0, rows, validDate).store.cities, rows[|rows| - 1])
  {
    var n := |rows| - 1;
    RunLast(s0, rows, validDate);
    RunCityNames(s0, rows[..n], validDate);
    FirstCityRowLast(rows, n);
    CityCreated(Run(s0, rows[..n], validDate).store, rows[n], validDate);
  }

  /** The stored city for the row's name holds that row's coordinates. */
  predicate CityFromRow(cities: map<string, City>, row: ParsedOffer) {
    row.city in cities && cities[row.city] == City(row.city, RowCoordinates(row))
  }

  /** Importing a row never replaces a stored city. */
  lemma CityKept(s: Store, row: ParsedOffer, validDate: DateCheck, first: ParsedOffer)
    requires WellFormedRow(row) && CityFromRow(s.cities, first)
    ensures CityFromRow(ImportRow(s, row, validDate).0.cities, first)
  {
    ImportRowCities(s, row, validDate);
  }

  /** Importing a row whose city is new stores the city with the row's coordinates. */
  lemma CityCreated(s: Store, row: ParsedOffer, validDate: DateCheck)
    requires WellFormedRow(row) && row.city !in s.cities
    ensures CityFromRow(ImportRow(s, row, validDate).0.cities, row)
  {
    ImportRowCities(s, row, validDate);
  }

  /** Row `k` of a longer list is still the first with its city in the list without the last row. */
  lemma FirstCityRowPrefix(rows: seq<ParsedOffer>, k: nat)
    requires k + 1 < |rows| && FirstCityRow(rows, k)
    ensures rows[..|rows| - 1][k] == rows[k] && FirstCityRow(rows[..|rows| - 1], k)
  {
  }

  /** The last row, when it is the first with its city, names a city no earlier row names. */
  lemma FirstCityRowLast(rows: seq<ParsedOffer>, k: nat)
    requires k + 1 == |rows| && FirstCityRow(rows, k)
    ensures rows[k].city !in CityNames(rows[..k])
  {
    var prefix := rows[..k];
    forall j | 0 <= j < |prefix|
      ensures prefix[j].city != rows[k].city
    {
      assert prefix[j] == rows[j];
    }
    NotInCityNames(prefix, rows[k].city);
  }

  lemma NotInCityNames(rows: seq<ParsedOffer>, name: string)
    requires forall j :: 0 <= j < |rows| ==> rows[j].city != name
    ensures name !in CityNames(rows)
  {
    forall r | r in rows
      ensures r.city != name
    {
      var j :| 0 <= j < |rows| && rows[j] == r;
    }
  }

  /** The users one well-formed row leaves: its author is added when the email
      is new and the author fields pass the schema. */
  lemma ImportRowUsers(s: Store, row: ParsedOffer, validDate: DateCheck)
    requires WellFormedRow(row)
    ensures var s' := ImportRow(s, row, validDate).0;
      s'.users == if row.authorEmail in s.users || !UserDataValid(RowUser(row)) then s.users
                  else s.users[row.authorEmail := RowUserRecord(s.nextId, row)]
    ensures ImportRow(s, row, validDate).0.nextId >= s.nextId
  {
    ImportRowEffects(s, row, validDate);
  }

  /** The emails of the rows whose author fields pass the user schema. */
  function UserEmails(rows: seq<ParsedOffer>): set<string> {
    set r | r in rows && UserDataValid(RowUser(r)) :: r.authorEmail
  }

  /** One more row keeps the old users and adds the row's email when its author can be created. */
  lemma UserEmailsStep(initial: map<string, User>, mid: Store, prefix: seq<ParsedOffer>, last: ParsedOffer, validDate: DateCheck)
    requires WellFormedRow(last)
    requires mid.users.Keys == initial.Keys + UserEmails(prefix)
    requires forall e :: e in initial ==> mid.users[e] == initial[e]
    ensures var users := ImportRow(mid, last, validDate).0.users;
      && users.Keys == initial.Keys + UserEmails(prefix + [last])
      && (forall e :: e in initial ==> users[e] == initial[e])
  {
    ImportRowUsers(mid, last, validDate);
    UserEmailsSnoc(prefix, last);
  }

  lemma UserEmailsSnoc(rows: seq<ParsedOffer>, last: ParsedOffer)
    ensures UserEmails(rows + [last])
      == UserEmails(rows) + if UserDataValid(RowUser(last)) then {last.authorEmail} else {}
  {
    assert forall r :: r in rows + [last] <==> r in rows || r == last;
  }

  /** Row `k` is the first with its email whose author fields pass the user schema. */
  predicate FirstUserRow(rows: seq<ParsedOffer>, k: nat)
    requires k < |rows|
  {
    && UserDataValid(RowUser(rows[k]))
    && forall j :: 0 <= j < k && rows[j].authorEmail == rows[k].authorEmail ==> !UserDataValid(RowUser(rows[j]))
  }

  /** Across the loop, over rows `parseOfferRow` accepted: the stored users are
      the old ones, unchanged, plus one per new email some row can create. */
  lemma {:induction false} RunUserEmails(s0: Store, rows: seq<ParsedOffer>, validDate: DateCheck)
    requires forall k :: 0 <= k < |rows| ==> WellFormedRow(rows[k])
    ensures var users := Run(s0, rows, validDate).store.users;
      && users.Keys == s0.users.Keys + UserEmails(rows)
      && (forall e :: e in s0.users ==> users[e] == s0.users[e])
    decreases |rows|
  {
    if |rows| > 0 {
      var n := |rows| - 1;
      var prefix, last := rows[..n], rows[n];
      assert rows == prefix + [last];
      RunUserEmails(s0, prefix, validDate);
      RunLast(s0, rows, validDate);
      UserEmailsStep(s0.users, Run(s0, prefix, validDate).store, prefix, last, validDate);
    }
  }

  /** A user new to the store holds the name, avatar and type of the first row
      with that email that could create it; later rows with the email reuse it. */
  lemma {:induction false} RunUserFirstRow(s0: Store, rows: seq<ParsedOffer>, validDate: DateCheck, k: nat)
    requires forall k :: 0 <= k < |rows| ==> WellFormedRow(rows[k])
    requires k < |rows| && rows[k].authorEmail !in s0.users && FirstUserRow(rows, k)
    ensures var users := Run(s0, rows, validDate).store.users;
      && rows[k].authorEmail in users
      && var u := users[rows[k].authorEmail];
      && u.name == rows[k].authorName && u.avatar == rows[k].authorAvatar
      && Some(u.userType) == ParseUserType(rows[k].authorType)
    decreases |rows|, 1
  {
    if k + 1 < |rows| {
      RunUserEarlierRow(s0, rows, validDate, k);
    } else {
      RunUserLastRow(s0, rows, validDate);
    }
  }

  /** The user of an earlier first row survives the last row. */
  lemma {:induction false} RunUserEarlierRow(s0: Store, rows: seq<ParsedOffer>, validDate: DateCheck, k: nat)
    requires forall k :: 0 <= k < |rows| ==> WellFormedRow(rows[k])
    requires k + 1 < |rows| && rows[k].authorEmail !in s0.users && FirstUserRow(rows, k)
    ensures UserFromRow(Run(s0, rows, validDate).store.users, rows[k])
    decreases |rows|, 0
  {
    var prefix := rows[..|rows| - 1];
    RunLast(s0, rows, validDate);
    FirstUserRowPrefix(rows, k);
    RunUserFirstRow(s0, prefix, validDate, k);
    UserKept(Run(s0, prefix, validDate).store, rows[|rows| - 1], validDate, rows[k]);
  }

  /** The last row, when it is the first valid one with its email, creates that user. */
  lemma RunUserLastRow(s0: Store, rows: seq<ParsedOffer>, validDate: DateCheck)
    requires forall k :: 0 <= k < |rows| ==> WellFormedRow(rows[k])
    requires |rows| > 0 && rows[|rows| - 1].authorEmail !in s0.users && FirstUserRow(rows, |rows| - 1)
    ensures UserFromRow(Run(s0, rows, validDate).store.users, rows[|rows| - 1])
  {
    var n := |rows| - 1;
    RunLast(s0, rows, validDate);
    RunUserEmails(s0, rows[..n], validDate);
    FirstUserRowLast(rows, n);
    UserCreated(Run(s0, rows[..n], validDate).store, rows[n], validDate);
  }

  /** The stored user for the row's email holds that row's author fields. */
  predicate UserFromRow(users: map<string, User>, row: ParsedOffer) {
    && row.authorEmail in users
    && var u := users[row.authorEmail];
    && u.name == row.authorName && u.avatar == row.authorAvatar
    && Some(u.userType) == ParseUserType(row.authorType)
  }

  /** Importing a row never replaces a stored user. */
  lemma UserKept(s: Store, row: ParsedOffer, validDate: DateCheck, first: ParsedOffer)
    requires WellFormedRow(row) && UserFromRow(s.users, first)
    ensures UserFromRow(ImportRow(s, row, validDate).0.users, first)
  {
    ImportRowUsers(s, row, validDate);
  }

  /** Importing a row with a new email and valid author fields stores that author. */
  lemma UserCreated(s: Store, row: ParsedOffer, validDate: DateCheck)
    requires WellFormedRow(row) && row.authorEmail !in s.users && UserDataValid(RowUser(row))
    ensures UserFromRow(ImportRow(s, row, validDate).0.users, row)
  {
    ImportRowUsers(s, row, validDate);
  }

  lemma FirstUserRowPrefix(rows: seq<ParsedOffer>, k: nat)
    requires k + 1 < |rows| && FirstUserRow(rows, k)
    ensures rows[..|rows| - 1][k] == rows[k] && FirstUserRow(rows[..|rows| - 1], k)
  {
  }

  /** The last row, when it is the first valid one with its email, has an email
      no earlier row could create. */
  lemma FirstUserRowLast(rows: seq<ParsedOffer>, k: nat)
    requires k + 1 == |rows| && FirstUserRow(rows, k)
    ensures rows[k].authorEmail !in UserEmails(rows[..k])
  {
    var prefix := rows[..k];
    var email := rows[k].authorEmail;
    forall j | 0 <= j < |prefix| && prefix[j].authorEmail == email
      ensures !UserDataValid(RowUser(prefix[j]))
    {
      assert prefix[j] == rows[j];
    }
    NotInUserEmails(prefix, email);
  }

  lemma NotInUserEmails(rows: seq<ParsedOffer>, email: string)
    requires forall j :: 0 <= j < |rows| && rows[j].authorEmail == email ==> !UserDataValid(RowUser(rows[j]))
    ensures email !in UserEmails(rows)
  {
    forall r | r in rows && r.authorEmail == email
      ensures !UserDataValid(RowUser(r))
    {
      var j :| 0 <= j < |rows| && rows[j] == r;
    }
  }

  /** A store whose city names and user emails include another's. */
  predicate CoversKeys(a: Store, b: Store) {
    a.cities.Keys <= b.cities.Keys && a.users.Keys <= b.users.Keys
  }

  /** A row that imports into a store also imports into any store with more
      keys, and the keys stay covered afterwards. */
  lemma ImportRowMonotone(a: Store, b: Store, row: ParsedOffer, validDate: DateCheck)
    requires CoversKeys(a, b)
    ensures ImportRow(a, row, validDate).1 ==> ImportRow(b, row, validDate).1
    ensures CoversKeys(ImportRow(a, row, validDate).0, ImportRow(b, row, validDate).0)
  {
    ImportRowEffects(a, row, validDate);
    ImportRowEffects(b, row, validDate);
  }

  /** Running the same rows against a store with more keys imports at least as many. */
  lemma {:induction false} RunMonotone(a: Store, b: Store, rows: seq<ParsedOffer>, validDate: DateCheck)
    requires CoversKeys(a, b)
    ensures Run(a, rows, validDate).imported <= Run(b, rows, validDate).imported
    ensures CoversKeys(Run(a, rows, validDate).store, Run(b, rows, validDate).store)
    decreases |rows|
  {
    if |rows| > 0 {
      var n := |rows| - 1;
      RunMonotone(a, b, rows[..n], validDate);
      ImportRowMonotone(Run(a, rows[..n], validDate).store, Run(b, rows[..n], validDate).store, rows[n], validDate);
    }
  }

  /** The loop only adds city names and user emails. */
  lemma {:induction false} RunGrowsKeys(s0: Store, rows: seq<ParsedOffer>, validDate: DateCheck)
    ensures CoversKeys(s0, Run(s0, rows, validDate).store)
    decreases |rows|
  {
    if |rows| > 0 {
      var n := |rows| - 1;
      RunGrowsKeys(s0, rows[..n], validDate);
      ImportRowEffects(Run(s0, rows[..n], validDate).store, rows[n], validDate);
    }
  }

  /** Importing the same accepted rows a second time adds no city and no user. */
  lemma ReimportKeepsCitiesAndUsers(s0: Store, rows: seq<ParsedOffer>, validDate: DateCheck)
    requires forall k :: 0 <= k < |rows| ==> WellFormedRow(rows[k])
    ensures var first := Run(s0, rows, validDate).store;
      && Run(first, rows, validDate).store.cities == first.cities
      && Run(first, rows, validDate).store.users == first.users
  {
    var first := Run(s0, rows, validDate).store;
    var second := Run(first, rows, validDate).store;
    RunCityNames(s0, rows, validDate);
    RunCityNames(first, rows, validDate);
    SameKeysSameMap(first.cities, second.cities);
    RunUserEmails(s0, rows, validDate);
    RunUserEmails(first, rows, validDate);
    SameKeysSameMap(first.users, second.users);
  }

  /** A map that keeps every old entry and gains no key is the old map. */
  lemma SameKeysSameMap<K, V>(a: map<K, V>, b: map<K, V>)
    requires b.Keys == a.Keys
    requires forall k :: k in a ==> b[k] == a[k]
    ensures b == a
  {
  }

  /** A second import imports at least as many offers as the first: every row
      that imported before imports again, since offers are never looked up.
      When the first run skipped nothing, the second imports every row again,
      so the offers double. */
  lemma ReimportImportsAtLeast(s0: Store, rows: seq<ParsedOffer>, validDate: DateCheck)
    ensures var first := Run(s0, rows, validDate);
      && Run(first.store, rows, validDate).imported >= first.imported
      && (first.skipped == 0 ==> Run(first.store, rows, validDate).imported == |rows|)
  {
    RunGrowsKeys(s0, rows, validDate);
    RunMonotone(s0, Run(s0, rows, validDate).store, rows, validDate);
  }

  /** Two rows for one email, the first with an author type the schema
      refuses: the first import skips that row (after creating its city) and
      imports the second, which creates the user; the second import then finds
      the user for both rows. So a second import need not add exactly as many
      offers as the first. */
  lemma ReimportCanImportMore()
    ensures var rows := [SampleRow("admin"), SampleRow("pro")];
      var always: DateCheck := _ => true;
      var first := Run(EmptyStore, rows, always);
      && first.imported == 1 && first.skipped == 1
      && Run(first.store, rows, always).imported == 2
  {
    var rows := [SampleRow("admin"), SampleRow("pro")];
    var always: DateCheck := _ => true;
    assert rows[..1] == [SampleRow("admin")];
    assert rows[..1][..0] == [];
    var s1 := ImportRow(EmptyStore, rows[0], always).0;
    assert !ImportRow(EmptyStore, rows[0], always).1;
    var s2 := ImportRow(s1, rows[1], always).0;
    assert ImportRow(s1, rows[1], always).1;
    assert "a@example.com" in s2.users;
    assert ImportRow(s2, rows[0], always).1;
  }

  /** A row that passes every schema check except, possibly, its author type. */
  function SampleRow(authorType: string): ParsedOffer {
    ParsedOffer(Some("Flat"), Some("A flat"), Some("2024-01-01"), "Paris", Some("p.jpg"), [], false, false,
      Fin(4.0), Some("house"), Fin(1.0), Fin(2.0), Fin(100.0), [], "Ann", "a@example.com", None, authorType,
      Fin(48.0), Fin(2.0), Fin(0.0))
  }

  /** Every record a successful strict read returns is well formed, so the loop can always resolve its city. */
  lemma ReadRowsWellFormed(lines: seq<string>)
    requires ReadLines(lines).Ok?
    ensures forall k :: 0 <= k < |ReadLines(lines).value| ==> WellFormedRow(ReadLines(lines).value[k])
  {
    ReadLinesRecords(lines);
  }
}
