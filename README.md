# Flight ranking search, modelled in Dafny

This project models the flight-search service of the `whereto` interview
repository: the ranking routine `FlightService.searchFlights`, the airport
coordinate table of `src/airports.ts`, and the validation of the `limit`
query parameter of the `/search` handler in `src/index.ts`.

`searchFlights(limit, departureAirport, departure, maxDuration, preferredCarrier)`
makes one pass over the in-memory catalog. A flight is kept when it leaves
`departureAirport`, departs no later than `departure`, and, when `maxDuration`
is given, lasts no longer than it. Each kept flight is pushed with the score
`duration * preference + distance`, where the preference is 0.9 for the
preferred carrier and 1 otherwise. The collected list is sorted ascending by
score with the stable `Array.prototype.sort`, and `slice(0, limit)` is returned.

Files and modules:

- `wrappers.dfy` (`Wrappers`): `Option` (for JavaScript's `undefined`) and `Result`.
- `flight_types.dfy` (`FlightTypes`): `Flight`, `ScoredFlight`, `Coord`, `Duration`.
- `score_sort.dfy` (`ScoreSort`): the stable sort by score. `StableSort` is the
  reference definition. `SortedTiesUnique` proves that any list that is ascending
  by score and keeps each group of equal scores in input order is that same list,
  so the result does not depend on which stable algorithm the engine uses.
  `SortByScore` is an in-place insertion sort on an array, proved to produce `StableSort`.
- `flight_service.dfy` (`FlightService`): the filter, the score, the specification
  `ScoredList` / `Search`, the lemmas about them, and the class `FlightService`
  whose `SearchFlights` method runs the loop, fills and sorts an array and slices it.
- `airports.dfy` (`Airports`): the fold of CSV records into the table
  (`LoadAirportLocations`), the one-time cache (class `AirportLocations`) and
  the asserted lookup (`Distance`).
- `search_endpoint.dfy` (`SearchEndpoint`): the `limit` check and conversion,
  and the handler's error mapping.

Modelling conventions:

- Instants are integers in milliseconds, as `Date.getTime()` returns them. A
  duration is `arrivalTime - departureTime` in milliseconds. It can be negative.
- Scores, `maxDuration` and distances are `real`, so the factor is exactly 0.9
  or 1. The code's comment speaks of hours and miles, but the arithmetic adds
  milliseconds to meters. The model does what the arithmetic does.
- `searchFlights` calls the distance stub declared in its own file
  (`src/flight-service.ts:111-126`), not the function exported by
  `src/airports.ts`. The stub measures between two fixed coordinates, whatever
  codes it receives. The great-circle function `haversine` is a parameter, of
  type `(Coord, Coord) -> real` for the stub and `(Location, Location) -> real`
  for the airports module.
- In `src/airports.ts` a CSV record is a list of strings. A field past the end
  of a record reads as `undefined` (`None`), so keys and coordinates are
  `Option<string>`. The latitude and longitude stay strings, as csv-parse
  delivers them, although the declared type says numbers.
- Through HTTP every query value is a string. `z.number()` accepts no string,
  so a request that carries `maxDuration` always fails validation. The handler
  model therefore takes `maxDuration` as the raw optional string and always
  passes `None` on to the search.

Behaviour of the code worth knowing when reading the model:

- There is no bounded top-K selector: every kept flight is collected, the whole
  list is sorted, then sliced.
- `limit` is not clamped: `"0"` gives an empty result, and a large value is
  passed on as it is.
- Negative durations are scored like any other.
- The stub accepts any code. The `src/airports.ts` lookup fails an assertion on
  an unknown code.
- Every failure inside the handler's try block ends in status 500.

## Model

| member | source | states |
|---|---|---|
| `FlightService.GetDistanceBetweenAirports` | src/flight-service.ts:111-126 | the stub: haversine of its two fixed coordinates, whatever the two codes are |
| `FlightService.StubDistanceIsConstant` | src/flight-service.ts:111-126 | the stub returns haversine of its two fixed coordinates, so any two code pairs get the same distance |
| `FlightService.IsCandidate` | src/flight-service.ts:73-86 | the three guards: origin equals the requested airport, departure no later than the cutoff, and duration at most `maxDuration` when one is given |
| `FlightService.Preference` | src/flight-service.ts:88-91 | the factor is 0.9 exactly when a preferred carrier is given and equals the flight's carrier, and 1 in every other case |
| `FlightService.ScoreFlight` | src/flight-service.ts:88-101 | the pushed entry: the flight with score duration * preference + the stub distance from the requested airport to the flight's destination |
| `FlightService.ScoredList` | src/flight-service.ts:71-102 | the list after the loop: one pushed entry per guarded flight, in catalog order; never longer than the catalog |
| `FlightService.Search` | src/flight-service.ts:104-107 | the stably sorted scored list cut to its first `limit` entries; never longer than `limit` or the catalog |
| `FlightService.ScoredListFollowsCatalog` | src/flight-service.ts:71-102 | the scored list holds one entry per flight passing the three guards, in catalog order: strictly increasing catalog positions, and every passing position is among them |
| `FlightService.ScoredListMembers` | src/flight-service.ts:73-101 | an entry is in the scored list iff some catalog flight leaves the requested airport, departs no later than the cutoff (inclusive), lasts at most `maxDuration` when one is given (no sign check), and the entry is that flight with score duration * preference + distance |
| `FlightService.ScoredFrom` | src/flight-service.ts:73-101 | every scored entry comes from a catalog flight that passes the guards and carries its score |
| `FlightService.CandidateScored` | src/flight-service.ts:73-101 | every catalog flight that passes the guards is pushed with its score |
| `FlightService.ScoredListSameDistance` | src/flight-service.ts:93-99 | with the stub, every entry's score is its weighted duration plus one common distance, haversine of the stub's two points |
| `FlightService.CarrierNeverExcludes` | src/flight-service.ts:88-91 | changing the preferred carrier leaves the same flights in the scored list, in the same order; it only changes scores |
| `FlightService.SearchLength` | src/flight-service.ts:106-107 | the result has min(limit, number of passing flights) entries; limit 0 gives none and no upper bound is applied |
| `FlightService.SearchIsSortedPrefix` | src/flight-service.ts:104-107 | the result is a prefix of the stably sorted scored list, and it is ascending by score |
| `FlightService.SearchOnlyCandidates` | src/flight-service.ts:73-86 | every returned entry is a scored entry for a catalog flight with the requested origin, departing no later than the cutoff and within `maxDuration` when given |
| `FlightService.SearchLeftOutScoreNoBetter` | src/flight-service.ts:104-107 | every entry of the sorted list past the cut, a second copy of a returned flight included, scores no lower than every returned entry; so does every scored entry not returned |
| `FlightService.SearchKeepsTies` | src/flight-service.ts:101-104 | for every score, the sorted list holds exactly the scored entries with that score, each separately, in their pushed (catalog) order |
| `FlightService.SearchKeepsAllWhenLimitCovers` | src/flight-service.ts:104-107 | when limit is at least the number of scored entries, the result is a permutation of the scored list, duplicates included |
| `FlightService.FlightService.constructor` | src/flight-service.ts:46 | the service holds the given catalog |
| `FlightService.FlightService.SearchFlights` | src/flight-service.ts:61-108 | the loop, in-place sort and slice return exactly `Search` of the catalog: ascending, at most `limit` long, and only flights of the catalog with the requested origin, cutoff and duration bound; the catalog is not modified (no modifies clause) |
| `ScoreSort.Insert` | src/flight-service.ts:104 | inserting one entry lengthens the list by one |
| `ScoreSort.StableSort` | src/flight-service.ts:104 | sorting keeps the length |
| `ScoreSort.InsertPermutation` | src/flight-service.ts:104 | inserting keeps the old entries and adds the new one |
| `ScoreSort.InsertTies` | src/flight-service.ts:104 | inserting appends the entry to the end of its own equal-score group and leaves other groups alone |
| `ScoreSort.StableSortPermutation` | src/flight-service.ts:104 | the sorted list is a permutation of the input |
| `ScoreSort.StableSortSorted` | src/flight-service.ts:104 | the sorted list is non-decreasing by score |
| `ScoreSort.StableSortTies` | src/flight-service.ts:104 | stability: each equal-score group of the sorted list is that group of the input, in input order |
| `ScoreSort.SortedTiesUnique` | src/flight-service.ts:104 | two lists that are both ascending and have the same equal-score groups are equal |
| `ScoreSort.StableSortUnique` | src/flight-service.ts:104 | any ascending list with the input's equal-score groups is `StableSort` of the input, so any stable sort gives the same result |
| `ScoreSort.SortByScore` | src/flight-service.ts:104 | sorting the array in place leaves it holding `StableSort` of its old contents |
| `ScoreSort.InsertInto` | src/flight-service.ts:104 | moving the entry after the sorted prefix leftwards leaves the array as `Insert` of it into the prefix, followed by the untouched rest |
| `ScoreSort.SortStep` | src/flight-service.ts:104 | one round of insertion sort turns the array into `StableSort` of one more input entry followed by the untouched rest |
| `Airports.Field` | src/airports.ts:15-18 | reading field i gives the field when the record is long enough and `undefined` otherwise |
| `Airports.LoadAirportLocations` | src/airports.ts:9-22 | the loop builds exactly the fold of the records, and `\N` is never a key |
| `Airports.Code` | src/airports.ts:15-16 | the key of a record: field 4, or `undefined` when the record has at most four fields |
| `Airports.LocationOf` | src/airports.ts:17-18 | the stored value: fields 6 and 7, each `undefined` when the record is too short |
| `Airports.BuildTable` | src/airports.ts:13-21 | the fold: records in file order, `\N` codes skipped, each other record setting its code to its location |
| `Airports.NoCodeNeverKey` | src/airports.ts:15-16 | a record whose code is `\N` never becomes a key |
| `Airports.TableKeys` | src/airports.ts:13-21 | the key set is exactly the set of codes other than `\N` among the records |
| `Airports.LastRecordWins` | src/airports.ts:17-19 | a code maps to fields 6 and 7 of the last record with that code |
| `Airports.AddRecord` | src/airports.ts:19 | one more record overwrites its own code's entry, unless the code is `\N`, and leaves every other key and value unchanged |
| `Airports.Distance` | src/airports.ts:27-33 | the lookup succeeds iff both codes are keys, then gives haversine of their locations; a missing first code fails the first assertion |
| `Airports.AirportLocations.constructor` | src/airports.ts:7 | the cache starts empty and nothing has been loaded |
| `Airports.AirportLocations.Ensure` | src/airports.ts:25 | the first call loads the table and later calls reuse it without loading again; the table is loaded at most once |
| `Airports.AirportLocations.GetDistanceBetweenAirports` | src/airports.ts:24-34 | after the call the table is cached, and the result is the asserted lookup in the fold of the records |
| `SearchEndpoint.MatchesIntegerRegex` | src/index.ts:8 | `/^[0-9]+$/`: one or more ASCII digits and nothing else |
| `SearchEndpoint.DecimalValue` | src/index.ts:22 | `Number` of a digit string: its decimal value, most significant digit first; n digits give less than 10^n |
| `SearchEndpoint.ParseLimit` | src/index.ts:19-22 | `limit` is accepted iff present and a non-empty string of ASCII digits, and then converts to its decimal value |
| `SearchEndpoint.ParseDecimalString` | src/index.ts:22 | round trip: the decimal rendering of any n is accepted and converts back to n |
| `SearchEndpoint.LeadingZeroIgnored` | src/index.ts:22 | a leading zero does not change the converted value |
| `SearchEndpoint.LimitExamples` | src/index.ts:8 | `"0"` gives 0 and `"007"` gives 7; `"-1"`, `"1.5"`, `" 1"`, `"1\n"`, `""` and a missing limit are rejected |
| `SearchEndpoint.QueryValid` | src/index.ts:11-23 | `searchParams.parse` succeeds: `limit` passes the regex, `departureAirport` and an ISO `departure` are present, and `maxDuration` is absent |
| `SearchEndpoint.HandleSearch` | src/index.ts:27-51 | any validation failure ends in status 500; otherwise the answer is the search with the converted limit passed on unchanged |
| `SearchEndpoint.ZeroLimitFindsNothing` | src/index.ts:35-41 | `limit=0` is accepted as 0 and the search then returns no flights |

## Left out

- Loading the catalog: `FlightService.use` and `initialize` read `data.json` and parse it with zod. This is file I/O. The constructor takes the parsed catalog, and the re-initialization on every request is not modelled.
- Parsing ISO-8601 datetimes with zod and `Date`. This is a foreign library. Instants are given as integers in milliseconds, and the handler takes `departure` already parsed (`None` when missing or malformed).
- The `haversine` computation. It is floating-point code in a foreign library, so it is a parameter.
- Reading `airports.dat` with `createReadStream` and csv-parse. This is I/O. The model folds a given sequence of records; csv quoting and column-count checks are not modelled.
- The race between concurrent first calls on `AIRPORT_LOCATIONS ??= await ...`. Only the sequential one-shot cache is modelled.
- The h3 app, router, `getQuery`, `listen` and logging. A repeated query parameter, which arrives as an array, is not modelled.
- `FlightService.getFlights`, a plain accessor of the catalog, has no separate member.
- Floating-point arithmetic. Scores are exact reals, so rounding of `duration * 0.9 + distance` is not captured, nor NaN.
- SearchEndpoint.ParseLimit: gives the exact decimal value, whereas `Number` rounds values above 2^53 to the nearest double; this could only change a limit that already exceeds any catalog.
- FlightService.FlightService.SearchFlights: `limit` is a natural number, the only kind the handler produces; `slice` with a negative or fractional limit is not modelled.
