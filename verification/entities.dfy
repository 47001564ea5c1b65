/** The three stored entities (the `*.entity.ts` files under `src/models`) and an abstract store
    standing in for the document database: each collection is a map keyed by its
    unique natural key (city name, user email) plus an append-only offer list.
    `Create*` applies the schema's validation (required fields, enums, casting
    of numbers, the `commentCount` default) and its unique indexes. */
module Entities {
  import opened Results
  import opened Numbers

  datatype HousingType = Apartment | House | Room | Hotel
  datatype UserType = Pro | Normal

  /** The `enum: ['apartment', 'house', 'room', 'hotel']` validator. */
  function ParseHousingType(s: string): (r: Option<HousingType>)
    ensures r.Some? <==> s in {"apartment", "house", "room", "hotel"}
  {
    if s == "apartment" then Some(Apartment)
    else if s == "house" then Some(House)
    else if s == "room" then Some(Room)
    else if s == "hotel" then Some(Hotel)
    else None
  }

  /** The `enum: ['pro', 'normal']` validator. */
  function ParseUserType(s: string): (r: Option<UserType>)
    ensures r.Some? <==> s in {"pro", "normal"}
  {
    if s == "pro" then Some(Pro) else if s == "normal" then Some(Normal) else None
  }

  datatype Coordinates = Coordinates(latitude: Num, longitude: Num)

  /** `CreateCityData`: a name and a coordinate pair, nothing else. */
  datatype CityData = CityData(name: string, coordinates: Coordinates)
  datatype City = City(name: string, coordinates: Coordinates)

  /** `CreateUserData`; `userType` is the raw text the caller passed. */
  datatype UserData = UserData(name: string, email: string, avatar: Option<string>, userType: string)
  datatype User = User(id: nat, name: string, email: string, avatar: Option<string>, userType: UserType)

  /** `CreateOfferData` as the importer fills it at run time: strings that may be
      `undefined`, numbers that may be NaN, a date that may be invalid (`None`),
      and a `commentCount` that may be left out (`None`). */
  datatype OfferData = OfferData(
    title: Option<string>,
    description: Option<string>,
    date: Option<string>,
    city: string,
    preview: Option<string>,
    images: seq<string>,
    isPremium: bool,
    isFavorite: bool,
    rating: Num,
    housingType: Option<string>,
    bedrooms: Num,
    guests: Num,
    price: Num,
    amenities: seq<string>,
    authorId: nat,
    coordinates: Coordinates,
    commentCount: Option<Num>)

  datatype Offer = Offer(
    title: string,
    description: string,
    date: string,
    city: string,
    preview: string,
    images: seq<string>,
    isPremium: bool,
    isFavorite: bool,
    rating: Num,
    housingType: HousingType,
    bedrooms: Num,
    guests: Num,
    price: Num,
    amenities: seq<string>,
    authorId: nat,
    coordinates: Coordinates,
    commentCount: Num)

  datatype StoreError = Invalid(path: string) | DuplicateKey(key: string)

  /** The database: cities by name, users by email, offers in insertion order,
      and the next fresh user id. */
  datatype Store = Store(cities: map<string, City>, users: map<string, User>, offers: seq<Offer>, nextId: nat)

  const EmptyStore := Store(map[], map[], [], 0)

  /** The unique indexes hold: each document sits under its own key, and user ids are fresh and distinct. */
  ghost predicate Valid(s: Store) {
    && (forall n :: n in s.cities ==> s.cities[n].name == n && n != "")
    && (forall e :: e in s.users ==> s.users[e].email == e && e != "" && s.users[e].id < s.nextId)
    && (forall e1, e2 :: e1 in s.users && e2 in s.users && e1 != e2 ==> s.users[e1].id != s.users[e2].id)
  }

  /** Every offer's `authorId` names a stored user (the schema's `ref: 'User'`,
      which the database itself does not enforce). */
  ghost predicate AuthorsExist(s: Store) {
    forall k :: 0 <= k < |s.offers| ==> HasUser(s.users, s.offers[k].authorId)
  }

  ghost predicate HasUser(users: map<string, User>, id: nat) {
    exists e :: e in users && users[e].id == id
  }

  /** A `required: true` String: present and not the empty string. */
  predicate RequiredText(v: Option<string>) {
    v.Some? && v.value != ""
  }

  /** A Number path: NaN fails the cast to Number. */
  predicate CastsToNumber(n: Num) {
    !n.NaN?
  }

  predicate CityDataValid(d: CityData) {
    d.name != "" && CastsToNumber(d.coordinates.latitude) && CastsToNumber(d.coordinates.longitude)
  }

  predicate UserDataValid(d: UserData) {
    d.name != "" && d.email != "" && ParseUserType(d.userType).Some?
  }

  predicate OfferDataValid(d: OfferData) {
    && RequiredText(d.title) && RequiredText(d.description) && d.date.Some?
    && d.city != "" && RequiredText(d.preview)
    && CastsToNumber(d.rating) && d.housingType.Some? && ParseHousingType(d.housingType.value).Some?
    && CastsToNumber(d.bedrooms) && CastsToNumber(d.guests) && CastsToNumber(d.price)
    && CastsToNumber(d.coordinates.latitude) && CastsToNumber(d.coordinates.longitude)
    && (d.commentCount.Some? ==> CastsToNumber(d.commentCount.value))
  }

  function FindCityByName(s: Store, name: string): (r: Option<City>)
    ensures r.Some? <==> name in s.cities
    ensures r.Some? ==> r.value == s.cities[name]
  {
    if name in s.cities then Some(s.cities[name]) else None
  }

  function FindUserByEmail(s: Store, email: string): (r: Option<User>)
    ensures r.Some? <==> email in s.users
    ensures r.Some? ==> r.value == s.users[email]
  {
    if email in s.users then Some(s.users[email]) else None
  }

  /** `CityService.create`: validation first, then the unique index on `name`. */
  function CreateCity(s: Store, d: CityData): (r: Result<(Store, City), StoreError>)
    ensures r.Ok? <==> CityDataValid(d) && d.name !in s.cities
    ensures r.Err? && CityDataValid(d) ==> r.error == DuplicateKey("name")
    ensures r.Ok? ==> var (s', c) := r.value;
      && c == City(d.name, d.coordinates)
      && s' == s.(cities := s.cities[d.name := c])
  {
    if d.name == "" then Err(Invalid("name"))
    else if !CastsToNumber(d.coordinates.latitude) then Err(Invalid("coordinates.latitude"))
    else if !CastsToNumber(d.coordinates.longitude) then Err(Invalid("coordinates.longitude"))
    else if d.name in s.cities then Err(DuplicateKey("name"))
    else
      var c := City(d.name, d.coordinates);
      Ok((s.(cities := s.cities[d.name := c]), c))
  }

  /** `UserService.create`: validation first, then the unique index on `email`;
      the new user gets a fresh id. */
  function CreateUser(s: Store, d: UserData): (r: Result<(Store, User), StoreError>)
    ensures r.Ok? <==> UserDataValid(d) && d.email !in s.users
    ensures r.Err? && UserDataValid(d) ==> r.error == DuplicateKey("email")
    ensures r.Ok? ==> var (s', u) := r.value;
      && u.id == s.nextId && u.name == d.name && u.email == d.email && u.avatar == d.avatar
      && Some(u.userType) == ParseUserType(d.userType)
      && s' == s.(users := s.users[d.email := u], nextId := s.nextId + 1)
  {
    if d.name == "" then Err(Invalid("name"))
    else if d.email == "" then Err(Invalid("email"))
    else if ParseUserType(d.userType).None? then Err(Invalid("type"))
    else if d.email in s.users then Err(DuplicateKey("email"))
    else
      var u := User(s.nextId, d.name, d.email, d.avatar, ParseUserType(d.userType).value);
      Ok((s.(users := s.users[d.email := u], nextId := s.nextId + 1), u))
  }

  /** `OfferService.create`: validation only; offers have no unique field, so
      an offer equal to a stored one is stored again. A missing `commentCount` becomes 0. */
  function CreateOffer(s: Store, d: OfferData): (r: Result<(Store, Offer), StoreError>)
    ensures r.Ok? <==> OfferDataValid(d)
    ensures r.Ok? ==> var (s', o) := r.value;
      && s' == s.(offers := s.offers + [o])
      && Some(o.title) == d.title && Some(o.description) == d.description && Some(o.date) == d.date
      && o.city == d.city && Some(o.preview) == d.preview && o.images == d.images
      && o.isPremium == d.isPremium && o.isFavorite == d.isFavorite && o.rating == d.rating
      && Some(o.housingType) == ParseHousingType(d.housingType.value)
      && o.bedrooms == d.bedrooms && o.guests == d.guests && o.price == d.price
      && o.amenities == d.amenities && o.authorId == d.authorId && o.coordinates == d.coordinates
      && o.commentCount == d.commentCount.GetOr(Fin(0.0))
  {
    if !OfferDataValid(d) then Err(Invalid(FirstInvalidOfferPath(d)))
    else
      var o := Offer(d.title.value, d.description.value, d.date.value, d.city, d.preview.value,
        d.images, d.isPremium, d.isFavorite, d.rating, ParseHousingType(d.housingType.value).value,
        d.bedrooms, d.guests, d.price, d.amenities, d.authorId, d.coordinates,
        d.commentCount.GetOr(Fin(0.0)));
      Ok((s.(offers := s.offers + [o]), o))
  }

  /** The first path, in schema order, whose validator rejects the data. */
  function FirstInvalidOfferPath(d: OfferData): string {
    if !RequiredText(d.title) then "title"
    else if !RequiredText(d.description) then "description"
    else if d.date.None? then "date"
    else if d.city == "" then "city"
    else if !RequiredText(d.preview) then "preview"
    else if !CastsToNumber(d.rating) then "rating"
    else if d.housingType.None? || ParseHousingType(d.housingType.value).None? then "type"
    else if !CastsToNumber(d.bedrooms) then "bedrooms"
    else if !CastsToNumber(d.guests) then "guests"
    else if !CastsToNumber(d.price) then "price"
    else if !CastsToNumber(d.coordinates.latitude) then "coordinates.latitude"
    else if !CastsToNumber(d.coordinates.longitude) then "coordinates.longitude"
    else "commentCount"
  }

  lemma CreateCityPreservesValid(s: Store, d: CityData)
    requires Valid(s) && CreateCity(s, d).Ok?
    ensures Valid(CreateCity(s, d).value.0)
  {
  }

  lemma CreateUserPreservesValid(s: Store, d: UserData)
    requires Valid(s) && CreateUser(s, d).Ok?
    ensures Valid(CreateUser(s, d).value.0)
    ensures AuthorsExist(s) ==> AuthorsExist(CreateUser(s, d).value.0)
  {
    var s' := CreateUser(s, d).value.0;
    if AuthorsExist(s) {
      forall k | 0 <= k < |s'.offers|
        ensures HasUser(s'.users, s'.offers[k].authorId)
      {
        assert HasUser(s.users, s.offers[k].authorId);
        var e :| e in s.users && s.users[e].id == s.offers[k].authorId;
        assert s'.users[e] == s.users[e];
      }
    }
  }

  /** A second city with a name already stored is refused. */
  lemma SecondCityRefused(s: Store, d1: CityData, d2: CityData)
    requires CreateCity(s, d1).Ok? && d2.name == d1.name
    ensures CreateCity(CreateCity(s, d1).value.0, d2).Err?
  {
  }

  /** A second user with an email already stored is refused, even with other details. */
  lemma SecondUserRefused(s: Store, d1: UserData, d2: UserData)
    requires CreateUser(s, d1).Ok? && d2.email == d1.email && UserDataValid(d2)
    ensures CreateUser(CreateUser(s, d1).value.0, d2) == Err(DuplicateKey("email"))
  {
  }

  /** The same offer data is accepted any number of times: each create appends one more offer. */
  lemma DuplicateOffersAccepted(s: Store, d: OfferData)
    requires CreateOffer(s, d).Ok?
    ensures var s1 := CreateOffer(s, d).value.0;
      && CreateOffer(s1, d).Ok?
      && |CreateOffer(s1, d).value.0.offers| == |s.offers| + 2
      && CreateOffer(s1, d).value.1 == CreateOffer(s, d).value.1
  {
  }
}
