# six-cities TSV import, modelled in Dafny

This project models the data-import side of the six-cities rental service. An offers file in TSV
form (tab-separated fields, one offer per line, a header line first) goes through these steps:

- It is read into offer records. The strict TypeScript reader `readTSV` / `parseOfferRow` aborts the
  whole read on a bad row. The older JavaScript `FileReader` skips the bad row instead.
- The records are written into a store of cities, users and offers by the find-or-create loop of
  `ImportService.importOffers`. The store follows the Mongoose schema rules of the three entity models.

The model also covers these pieces around the pipeline:

- the command-line argument parser and its command dispatch;
- the `generate` count validation;
- the TSV file the data generator writes;
- the order-preserving amenity de-duplication;
- the MongoDB connection string, with its defaults and the masked form written to the log.

The modules follow the program:

- `Results`, `Text` and `Numbers` hold the JavaScript primitives the code relies on:
  - `String.prototype.split`, `join` and `trim`, with the full set of ECMAScript white-space and
    line-terminator characters;
  - `parseInt(s, 10)` and `parseFloat(s)`, as exact decimal parsing of the longest valid prefix;
  - `NaN` and truthiness.
- `Cities` is the six-entry `CITY_COORDINATES` table.
- `TsvReader` is the strict reader. `LegacyReader` is the lenient one, together with the contracts
  that relate the two.
- `Entities` is the store: the three schemas, `create` with validation and unique keys, and
  `findByName` / `findByEmail`.
- `ImportService` is the import loop. `ImportCommand` is the `importCommand` wrapper.
- `CliArgs` holds `parseArguments`, `main`'s dispatch and `generateData`'s argument checks.
- `Generator` holds `generateTSV` and the amenity de-duplication.
- `Database` holds the pure part of `Database.connect`.

Some behaviour is passed in as parameters:

- the file text (`None` when the file cannot be read);
- whether connecting and disconnecting succeed;
- the validity of `new Date(text)`;
- the numbers the generator draws at random.

Behaviour worth noting:

- **An unknown city aborts the whole strict read.** In `parseOfferRow` an unknown city throws.
  `readTSV` catches nothing per row, so the whole file fails. The `if (offer)` filter never drops
  anything. `TsvReader.ReadLines` states this.
- **`importCommand`'s "file has no data" branch is unreachable.** A successful strict read returns
  at least one record (`ImportCommand.NoDataUnreachable`).
- **Stored offers take the coordinates from the row.** The city table is used only as the fallback
  when the row's value parses to NaN or 0.
- **Importing the same records twice does not always just double the offers.**
  - A second run never adds a city or a user.
  - A second run imports at least as many offers as the first.
  - It imports every record when the first run skipped none.
  - It can import more than the first run. This happens when a row's user was refused, but a later
    row created that e-mail (`ImportService.ReimportCanImportMore`).

## Model

| member | source | states |
|---|---|---|
| Results.Collect | src/cli/import.command.ts:52-61 | collecting per-row results succeeds iff every row succeeds, keeps order and length, and on failure reports the first failing row with every earlier row accepted |
| Results.CollectOfOks | src/cli/import.command.ts:52-61 | when every row result is a success, collecting them succeeds with exactly those values in order |
| Results.Property | src/cli/import.command.ts:92-113 | reading a property gives its value when the object has it and `undefined` otherwise |
| Results.Somes | src/cli.js:122-129 | keeping only the present values never lengthens the list, keeps everything iff nothing is absent, and yields only values that were present |
| Results.SomesAppend | src/cli.js:122-129 | keeping the present values of a concatenation keeps those of each part, in order, so every present value survives |
| Results.SomesSkip | src/cli.js:126-128 | an absent value drops out and leaves the values before and after it untouched |
| Text.TrimStart | src/cli/import.command.ts:84 | leading trim removes exactly a white-space prefix and stops at a non-white-space character |
| Text.TrimEnd | src/cli/import.command.ts:84 | trailing trim removes exactly a white-space suffix and stops at a non-white-space character |
| Text.TrimIsTrimmed | src/cli/import.command.ts:84 | trimming leaves no white space at either end and never lengthens the text |
| Text.TrimOfTrimmed | src/cli/import.command.ts:84 | trimming is idempotent on already-trimmed text |
| Text.TrimEmptyIffAllWhitespace | src/cli/import.command.ts:43 | a line is dropped as blank iff every one of its characters is white space |
| Text.Split | src/cli/import.command.ts:43 | splitting always yields at least one piece and no piece contains the separator |
| Text.JoinSplit | src/cli/import.command.ts:43 | joining the pieces of a split with the same separator gives back the original text |
| Text.SplitJoin | src/cli.js:288-291 | splitting a join of separator-free parts gives back exactly those parts |
| Text.SplitAtSeparator | src/cli/import.command.ts:53 | a split cuts at the first separator: the text before it is the first piece |
| Text.DropBlank | src/cli/import.command.ts:43 | removing blank lines keeps only non-blank lines taken from the input and never adds any |
| Text.DropBlankAppend | src/cli/import.command.ts:43 | the blank-line filter works line by line: the filter of a concatenation is the concatenation of the filters, so every non-blank line is kept, in order |
| Text.DropBlankKeepsNonBlank | src/cli/import.command.ts:43 | removing blank lines from lines none of which is blank changes nothing |
| Text.DropBlankOfBlank | src/cli/import.command.ts:43 | removing blank lines from all-blank lines leaves nothing |
| Text.CommaList | src/cli/import.command.ts:82-90 | every token of a comma list is non-empty, trimmed and comma-free |
| Text.NonEmptyTrimmedSnoc | src/cli/import.command.ts:82-85 | one more token adds its trimmed form at the end exactly when that is non-empty |
| Text.CommaListOfJoin | src/cli/import.command.ts:82-90 | reading a comma list written from non-empty, trimmed, comma-free tokens gives back those tokens in order |
| Text.NonEmptyTrimmedKeeps | src/cli/import.command.ts:84-85 | trimming and filtering tokens that are already non-empty and trimmed keeps them all |
| Text.CommaListOfCells | src/cli/import.command.ts:82-90 | a list field written as any comma-free cells, padded or empty ones included, reads as those cells trimmed with the empty ones dropped |
| Text.NonEmptyTrimmedMembers | src/cli/import.command.ts:84-85 | a string is in the trimmed, filtered list exactly when it is non-empty and the trimmed form of some token |
| Text.Take | src/cli/import.command.ts:98 | `slice(0, n)` is the prefix of length min(n, length) |
| Numbers.OrElse | src/cli/import.command.ts:111-112 | `x \|\| fallback` is x when x is truthy and the fallback when x is NaN or 0, and is always truthy |
| Numbers.ShowNat | src/cli.js:284-286 | the decimal form of a natural number is a non-empty digit string without leading zero whose value is the number |
| Numbers.DigitRun | src/cli/import.command.ts:103 | the digit run is the longest all-digit prefix |
| Numbers.ParseInt | src/cli/import.command.ts:103-105 | after the white space and one sign, `parseInt(s, 10)` is NaN exactly when no digit follows; a finite result is a whole number, non-negative unless the sign is a minus; the model never yields infinity |
| Numbers.ParseIntOfDigits | src/cli/import.command.ts:103-105 | white space, an optional `+` or `-`, a digit run (leading zeros allowed) and text not starting with a digit parse to the value of the digits, negated only for `-` |
| Numbers.ParseIntOfShowInt | src/cli/import.command.ts:103-105 | parsing a written integer, after leading white space and before any non-digit, gives back that integer |
| Numbers.ParseIntOfUnsigned | src/cli/import.command.ts:103-105 | text that starts with neither a digit, a sign nor white space parses to NaN |
| Numbers.UndefinedIsNaN | src/cli/import.command.ts:101-105 | parsing a missing column (the text "undefined") gives NaN for both parsers |
| Numbers.UnsignedFloat | src/cli/import.command.ts:101 | an unsigned float parse is NaN exactly when the text starts with neither `Infinity`, a digit, nor a point followed by a digit, and is never negative |
| Numbers.ParseFloat | src/cli/import.command.ts:101 | after the white space and one sign, `parseFloat` is NaN exactly when the text starts with neither `Infinity`, a digit, nor a point followed by a digit; a minus sign gives a non-positive value or negative infinity, otherwise the value is non-negative |
| Numbers.ParseFloatOfNegative | src/cli/import.command.ts:101 | a leading minus negates what the rest of the text parses to |
| Numbers.ParseFloatOfShowInt | src/cli/import.command.ts:101 | parsing a written integer as a float gives back that integer |
| Numbers.ParseFloatOfDecimal | src/cli/import.command.ts:111-112 | parsing `whole.frac` gives the exact decimal value whole + frac / 10^len |
| Numbers.DigitsValueAppend | src/cli/import.command.ts:103 | the value of concatenated digit strings is positional |
| Cities.Find | src/cli/import.command.ts:7-14 | a city name is found iff the table holds that exact name, and the found entry has that name and well-formed coordinates |
| Cities.FindOfTable | src/cli/import.command.ts:7-14 | looking up the name of any table row finds exactly that row, with its coordinates |
| Cities.NamesDistinct | src/cli/import.command.ts:7-14 | the six table names are distinct |
| Cities.TableWellFormed | src/cli/import.command.ts:7-14 | every table entry has a non-empty single-line name and positive decimal coordinates |
| Cities.ParisCoordinates | src/cli/import.command.ts:8 | Paris is found at latitude 48.85661 and longitude 2.351499 |
| Cities.TableCoordinates | src/cli/import.command.ts:8-13 | each of the twelve coordinates of the table has exactly the value of its literal |
| TsvReader.RowData | src/cli/import.command.ts:71-73 | the row map has exactly the header names as keys |
| TsvReader.RowDataLastWins | src/cli/import.command.ts:71-73 | a header's value is the cell at its last position, or "" when the row is shorter |
| TsvReader.OrDefault | src/cli/import.command.ts:107-113 | `value \|\| fallback` keeps a non-empty value and gives the fallback for an empty or missing one |
| TsvReader.Images | src/cli/import.command.ts:82-98 | the images are a prefix of the comma list of at most six tokens, and the whole list when it has fewer than six |
| TsvReader.Avatar | src/cli/import.command.ts:109 | the avatar is present iff the column exists and is non-empty, and then it is the column's text |
| TsvReader.Coordinate | src/cli/import.command.ts:111-112 | a coordinate is the parsed column when that is truthy and the table value otherwise, so it is never NaN or 0 |
| TsvReader.ParseOfferRow | src/cli/import.command.ts:67-118 | a row is accepted iff its city is one of the six names and the images and amenities columns exist; an accepted record has a known city, at most six images, truthy coordinates, a non-empty author type and no empty avatar |
| TsvReader.BuildOffer | src/cli/import.command.ts:82-114 | the built record keeps the row's city; its images are the first six of the comma list of the images column and its amenities the whole comma list of the amenities column; title, description, date, preview and type pass through (undefined when the column is absent); rating is the `parseFloat` of its column and bedrooms, guests and price the `parseInt` of theirs; the booleans are true iff the column is exactly "true"; author name and e-mail default to ""; the author type defaults to "normal" and otherwise passes through; a missing or empty comment count is 0; a coordinate that parses to a truthy number is that number and otherwise the table's |
| TsvReader.ParsedLists | src/cli/import.command.ts:82-90 | an accepted row whose list columns hold comma-free cells has those cells trimmed, empties dropped, as its amenities and the first six of them as its images |
| TsvReader.ParseIntOfZero | src/cli/import.command.ts:113 | the default comment count text "0" parses to zero |
| TsvReader.RowResults | src/cli/import.command.ts:52-54 | every data line is parsed against the header, in file order |
| TsvReader.ReadRows | src/cli/import.command.ts:52-64 | the rows are read iff every row is accepted, giving one record per row in order; otherwise the error names the first refused row and its cause |
| TsvReader.ReadTsv | src/cli/import.command.ts:40-42 | an unreadable file fails the read |
| TsvReader.ReadLines | src/cli/import.command.ts:43-64 | the read succeeds iff there are at least two non-blank lines and every data row is accepted, and then returns one record per data row |
| TsvReader.ReadLinesRecords | src/cli/import.command.ts:52-61 | the i-th record is the parse of the (i+1)-th non-blank line |
| TsvReader.ReadLinesBadRow | src/cli/import.command.ts:62-64 | a failed read names a data row that was refused, with every earlier row accepted |
| TsvReader.ReadLinesOfRecords | src/cli/import.command.ts:52-61 | when every data row parses to a given record, the read returns exactly those records |
| TsvReader.ReadLinesAccepted | src/cli/import.command.ts:43-61 | a file of a header and n data lines that all parse is read into exactly n records |
| Entities.ParseHousingType | src/models/offer.entity.ts:91-95 | the housing type is accepted iff it is apartment, house, room or hotel |
| Entities.ParseUserType | src/models/user.entity.ts:35-39 | the user type is accepted iff it is pro or normal |
| Entities.FindCityByName | src/services/city.service.ts:1-19 | a city is found iff one is stored under that name |
| Entities.FindUserByEmail | src/services/user.service.ts:1-25 | a user is found iff one is stored under that e-mail |
| Entities.CreateCity | src/models/city.entity.ts:23-39 | city creation succeeds iff the name is non-empty, both coordinates cast to numbers and the name is new; a valid duplicate fails on the unique name |
| Entities.CreateUser | src/models/user.entity.ts:21-44 | user creation succeeds iff name and e-mail are non-empty, the type is pro or normal and the e-mail is new; the new user gets a fresh id |
| Entities.CreateOffer | src/models/offer.entity.ts:53-135 | offer creation succeeds iff every required field is present and valid; it never checks uniqueness and defaults the comment count to 0 |
| Entities.CreateCityPreservesValid | src/models/city.entity.ts:24-29 | creating a city keeps every stored city under its own name |
| Entities.CreateUserPreservesValid | src/models/user.entity.ts:27-31 | creating a user keeps e-mails unique, ids distinct and every author reference resolvable |
| Entities.SecondCityRefused | src/models/city.entity.ts:24-29 | a second city with the same name is refused |
| Entities.SecondUserRefused | src/models/user.entity.ts:27-31 | a second valid user with the same e-mail is refused on the unique key |
| Entities.DuplicateOffersAccepted | src/models/offer.entity.ts:53-135 | the same offer data can be created twice, giving two equal offers |
| ImportService.ResolveCity | src/cli/import.service.ts:57-68 | the row's city is found, or created from the row's coordinates when it is missing; users and offers stay as they were |
| ImportService.ResolveUser | src/cli/import.service.ts:71-81 | the row's author is found by e-mail, or created from the row with a fresh id; cities and offers stay as they were |
| ImportService.ImportRow | src/cli/import.service.ts:55-111 | a row is imported iff its city and user resolve and its offer data is valid; an imported row appends exactly one offer and a skipped row none |
| ImportService.RowOfferCarriesRow | src/cli/import.service.ts:84-105 | the offer created for a row carries the row's fields, the resolved author id, the row's coordinates and its comment count; its date is present exactly when the row's date is present and valid |
| ImportService.ImportRowEffects | src/cli/import.service.ts:57-105 | the exact effect of one row on cities, users and the id counter; a created offer carries its user's id, the row's coordinates and the row's lists |
| ImportService.FailedRowKeepsCreated | src/cli/import.service.ts:108-111 | a failing row still leaves the city and user it created |
| ImportService.ImportRowPreservesValid | src/cli/import.service.ts:54-112 | one row keeps the store's keys consistent and every offer's author stored |
| ImportService.Run | src/cli/import.service.ts:51-112 | imported plus skipped is the number of records, and exactly the imported ones were appended to the existing offers |
| ImportService.RunPreservesValid | src/cli/import.service.ts:54-112 | the whole loop keeps the store's keys consistent and every offer's author stored |
| ImportService.ImportOffers | src/cli/import.service.ts:45-121 | disconnect happens exactly once; a finished import counts every record once and matches the loop; a connect failure changes nothing |
| ImportService.RunCityNames | src/cli/import.service.ts:57-68 | after the loop the stored city names are the earlier ones plus the rows' cities, with earlier cities untouched |
| ImportService.RunCityFirstRow | src/cli/import.service.ts:57-68 | a new city is stored with the coordinates of its first row |
| ImportService.RunUserEmails | src/cli/import.service.ts:71-81 | after the loop the stored e-mails are the earlier ones plus those of rows whose user data is valid, with earlier users untouched |
| ImportService.RunUserFirstRow | src/cli/import.service.ts:71-81 | a new user gets the name, avatar and type of the first valid row with that e-mail |
| ImportService.RunMonotone | src/cli/import.service.ts:54-112 | starting from a store that holds more cities and users never imports fewer rows |
| ImportService.RunGrowsKeys | src/cli/import.service.ts:54-112 | the loop never removes a city or a user |
| ImportService.ReimportKeepsCitiesAndUsers | src/cli/import.service.ts:84-105 | importing the same records again adds no city and no user |
| ImportService.ReimportImportsAtLeast | src/cli/import.service.ts:84-105 | importing again imports at least as many offers, and all of them when the first run skipped none |
| ImportService.ReimportCanImportMore | src/cli/import.service.ts:71-81 | two records, one with an invalid author type, import 1 then 2 offers |
| ImportService.ReadRowsWellFormed | src/cli/import.command.ts:75-113 | every record of a successful strict read names a non-empty city and has coordinates that are not NaN |
| ImportCommand.RunImportCommand | src/cli/import.command.ts:120-143 | the command reports no data iff the read returned nothing, exits with an error on a failed read without touching the store, and otherwise runs the import once |
| ImportCommand.NoDataUnreachable | src/cli/import.command.ts:130-133 | a successful read never returns an empty list |
| LegacyReader.LegacyParseRow | src/cli.js:138-190 | an accepted legacy record has table coordinates and at most six images |
| LegacyReader.LegacyReadTsv | src/cli.js:109-136 | an unreadable file or fewer than two non-blank lines give no records, and otherwise at most one record per data row |
| LegacyReader.KeepParsed | src/cli.js:122-129 | keeping the accepted rows keeps all of them iff every row is accepted |
| LegacyReader.KeepParsedSkips | src/cli.js:122-129 | a refused row is dropped and the records of the rows before and after it are kept as they are |
| LegacyReader.LegacyReadIsStrictFiltered | src/cli.js:109-136 | for every file with a header and data rows, bad rows included, the lenient read is exactly the strict parser's accepted records, projected, in file order, with the refused rows dropped |
| LegacyReader.LegacyRecordsFromTable | src/cli.js:180-183 | every legacy record's coordinates come from the city table |
| LegacyReader.ParsersAgree | src/cli.js:138-190 | the lenient parser accepts a row iff the strict one does, and then yields the same record with table coordinates |
| LegacyReader.LegacyReadOfStrictOk | src/cli.js:109-136 | when the strict read succeeds the lenient read returns the same records, one for one |
| LegacyReader.LegacyReadSkipsBadRow | src/cli.js:149-152 | when the strict read fails on a row the lenient read returns fewer records than there are data rows |
| CliArgs.RunEnd | src/cli.js:483-488 | the values of a flag run up to the next `--` argument or the end |
| CliArgs.Shape | src/cli.js:490-491 | no values give "true", one value gives that string, several give the list |
| CliArgs.ParseArguments | src/cli.js:476-497 | the keys are exactly the flags present, and each key holds the values after its last occurrence |
| CliArgs.Dispatch | src/cli.js:500-538 | no arguments show help; otherwise help, version, import and generate are tried in that order, and anything else is unknown; import carries the first element of the option as an array, and generate its first three elements |
| CliArgs.ItemsOfShape | src/cli.js:517-532 | an option read as an array is `['true']` for a bare flag and otherwise exactly the arguments after it |
| CliArgs.MainCommand | src/cli.js:500-534 | from the raw arguments: import gets the first argument after the last `--import`, or "true" when none follows; generate gets the first three arguments after the last `--generate`, with "true" as the count when none follows |
| CliArgs.ValidateGenerate | src/cli.js:422-436 | a missing argument is refused first, then a count that parses to NaN or to 0 or less; an accepted count is positive and is the parsed number |
| CliArgs.ValidateGenerateOfNumeral | src/cli.js:431-436 | a written positive count with non-empty path and url is accepted as that count |
| Generator.IndexOf | src/cli.js:221 | `indexOf` is -1 iff the value is absent, and otherwise the position of its first occurrence |
| Generator.Dedup | src/cli.js:217-222 | the de-duplicated list has the same elements, no duplicates, and keeps first occurrences in order |
| Generator.KeepFirst | src/cli.js:221 | the filter over the first k values keeps exactly the values seen so far, without duplicates, ordered by first occurrence |
| Generator.KeepFirstIsDedupRef | src/cli.js:221 | the `indexOf` filter over any prefix equals the reference de-duplication of that prefix |
| Generator.DedupIsDedupRef | src/cli.js:217-222 | the `indexOf` filter equals the reference definition that keeps each value at its first occurrence |
| Generator.HeadersDistinct | src/cli.js:233-255 | the header has 21 distinct names |
| Generator.RowFields | src/cli.js:265-287 | every generated line has one field per header |
| Generator.Lines | src/cli.js:257-289 | one line per offer, in order |
| Generator.RowLineReadBack | src/cli.js:259-289 | the strict parser reads a generated line back as the offer it was written from |
| Generator.GenerateTsv | src/cli.js:232-292 | the file's first line is the tab-joined column names, and the file is that line alone exactly when there are no offers; `GeneratedLines` and `GenerateThenRead` state the rest |
| Generator.GeneratedLines | src/cli.js:257-291 | the non-blank lines of a generated file are the header line followed by one line per offer |
| Generator.GenerateThenRead | src/cli.js:232-292 | reading a generated file with the strict reader returns one record per offer, equal to the offer, and an empty generation is refused for lack of data rows |
| Database.Resolve | src/core/database.ts:24-32 | an environment setting is the variable's value when it is set and non-empty, the default otherwise, and never empty when the default is not; a plain setting is its `String` text |
| Database.ResolveOptional | src/core/database.ts:33-38 | an environment user or password is the variable exactly as set, absent when unset; a plain one is kept iff truthy, as its `String` text, which is then non-empty |
| Database.ResolveAll | src/core/database.ts:24-38 | host, port and name each independently: 127.0.0.1, 27017 and six-cities when their variable is unset or empty, the variable's value when it is set, `String(value)` for a plain value; never empty when environment-driven |
| Database.UnsetEnvironmentDefaults | src/core/database.ts:24-47 | with every variable unset or empty the string is mongodb://127.0.0.1:27017/six-cities |
| Database.EnvironmentCredentials | src/core/database.ts:33-44 | credentials from the environment are used iff both variables are set and non-empty |
| Database.ConnectionString | src/core/database.ts:42-47 | every connection string starts with the mongodb scheme |
| Database.ConnectionStringShape | src/core/database.ts:42-47 | for an address without `@` or `?`, the string holds an `@` and ends in `?authSource=admin` exactly when both user and password are truthy, and then `user:password@` follows the scheme |
| Database.LastAt | src/core/database.ts:49 | the greedy match ends at the last `@` before the end of the line |
| Database.FindMatch | src/core/database.ts:49 | the replaced match is the leftmost one |
| Database.Mask | src/core/database.ts:49 | a string without `@` is logged unchanged |
| Database.MaskOfCredentials | src/core/database.ts:49 | masking text of the form pre//credentials@rest, with no `/` before and no `@` after and no line break in the credentials, gives pre, the placeholder, then rest |
| Database.MaskHidesCredentials | src/core/database.ts:43-49 | the logged form of a string with credentials shows the scheme, a fixed placeholder and the address, and neither user nor password |
| Database.MaskWithoutCredentials | src/core/database.ts:45-49 | a string without credentials is logged unchanged |
| Database.MaskKeepsMultilineCredentials | src/core/database.ts:49 | a password that contains a line break is left visible in the log |

## Left out

- File reading and writing, `process.exit`, the dynamic `import()` in `main`, and all logging and console
  output are left out. The file content is a parameter, with `None` for an unreadable file.
- The async/await structure is left out. The import loop is sequential over an explicit store value.
- Whether `connect` and `disconnect` succeed is a parameter of `ImportService.ImportOffers`.
- Mongoose itself is not modelled. This covers casting, ObjectIds, timestamps and the uniqueness index.
  In its place, an abstract store of maps keyed by city name and user e-mail holds a list of offers and
  an id counter. Validation follows the schema fields.
- Floating point is not modelled: no IEEE rounding, underflow, overflow or negative zero. `parseFloat("1e400")`
  is `Infinity` in JavaScript, but `Numbers.ParseFloat` keeps it as the exact finite value 10^400.
  - `parseFloat` and `parseInt` are exact decimal parsers of the longest valid prefix.
  - `Number.prototype.toString` of a table coordinate is its exact decimal text.
  - Exponent notation is parsed, but values of 1e21 and above are not written in exponent form.
- `new Date(text)` is not modelled. Its validity is the `DateCheck` parameter.
- Strings are sequences of code points. UTF-16 surrogate pairs are not modelled, and neither are
  special object keys such as `__proto__` in the row map.
- Randomness is not modelled:
  - `generateOffers` content;
  - `generateId`;
  - the random author name and e-mail numbers and the author type in `generateTSV`.

  The offers and the drawn numbers are parameters (`GeneratedOffer`, `AuthorPick`).
- `generateData`'s statistics, `importData` summary output, `showHelp` and `showVersion` are output
  only and are left out.
- The HTTP layer, the dependency-injection container and the convict configuration are not part of
  this model.
- Numbers.ParseInt: JavaScript's `parseInt` yields `Infinity` for a digit run of about 310 digits or more,
  because its result is a double. The model keeps exact integers and never yields infinity.
- Numbers.ParseFloat: JavaScript's `parseFloat` yields `Infinity` once the value passes the largest
  double (about 1.8e308), as in `parseFloat("1e400")`. The model keeps the exact value and yields
  infinity only for the text `Infinity`.
- Database.Resolve: a configuration value that is an object without an `env` key would be written
  with `String(object)`. Only strings, numbers, `undefined` and `null` are modelled.
- Database.MaskHidesCredentials: only holds when user and password contain no line terminator and
  the address no `@`. `MaskKeepsMultilineCredentials` shows that a password with a line break is
  logged in clear.
- Database.ConnectionString: its own contract only fixes the scheme. `ConnectionStringShape` states when
  the credentials and the `authSource` query appear, and where the credentials sit, for addresses without
  `@` or `?`; `UnsetEnvironmentDefaults` gives the whole string for the default address.
- Database.ConnectionStringShape: requires an address without `@` or `?`. An address holding them can
  imitate the credentials or the query, so no shape statement about the string alone holds for it.
- ImportService.RunCityNames: requires every record to name a non-empty city with coordinates
  that are not NaN. `ImportService.ReadRowsWellFormed` shows that every record of a successful strict
  read meets this.
- Generator.GenerateThenRead: requires offers whose text fields hold no tab or line break, whose city
  is in the table, and whose list tokens are non-empty, trimmed and comma-free. The generator's own
  offers meet this.
