# Flight planner route core, modelled in Dafny

This project models the route-construction and catalogue logic of the
`FlightPlanner` class of the flight-plan page (`flightplan.js`):

- loading the navaid and airport catalogues from CSV text into
  insertion-ordered `Map`s keyed by identifier (`loadNavaids`, `loadAirports`);
- the airport suggestions of the origin/destination inputs
  (`searchAirports`, `getNearbyAirports`);
- the choice of waypoints along a route (`findRouteWaypoints`,
  `isPointInCorridor`) and the polyline drawn through them (`drawRoute`).

The spherical trigonometry (haversine distance, initial bearing, cross-track
distance) is not modelled: the distance and cross-track functions are fields of
an `Earth` value passed in, so every property below holds whatever they compute.
Numbers read from the files and the results of that trigonometry are `Num`s:
a finite value or NaN. Every comparison with NaN is false, as in JavaScript.

Modules, one per component:

| file | module | what it holds |
|---|---|---|
| `wrappers.dfy` | `Wrappers` | `Option` (JavaScript `undefined`/`null`) and `Result` (an exception that escapes) |
| `seqs.dfy` | `Seqs` | `filter` and `slice(0, n)` on sequences |
| `js_strings.dfy` | `JsStrings` | `split('\n')`, `replace(/"/g, '')`, `trim`, `includes`, `toUpperCase` |
| `ordered_maps.dfy` | `OrderedMaps` | a string-keyed JavaScript `Map` as an association list in insertion order |
| `geodesy.dfy` | `Geodesy` | `Num`, `Coord` and the opaque great-circle functions |
| `catalogue.dfy` | `Catalogue` | navaid and airport records, the row parsers, the ingestion fold and its laws |
| `airport_search.dfy` | `AirportSearch` | the query match test, its exception, and the large-airport filter |
| `corridor.dfy` | `Corridor` | the waypoint tests, the candidate list, the stable sort by distance, the route polyline |
| `flight_planner.dfy` | `FlightPlan` | class `FlightPlanner`: the catalogue fields, the route line, and the methods that load, search and route |

How the code is followed:

- The `forEach` loops of `loadNavaids`, `loadAirports`, `searchAirports` and
  `findRouteWaypoints` are `while` loops in methods of `FlightPlanner`. The
  loaders' per-row callbacks are methods of their own (`LoadNavaidRow`,
  `LoadAirportRow`). Each method is proved against a specification function (`Ingest`, `Matching`,
  `Candidates`, `SortByDistance`), and the properties are lemmas about those
  functions.
- `Map.set` on a key already present replaces the value and keeps the key's
  position; on a new key it appends (`OrderedMaps.Put`).
- Only the navaid loader skips blank rows itself (`if (!row.trim())`). The
  airport loader has no such test. A blank row adds nothing there because the
  token regex finds no match in it, so `values` is `null`. Every match holds a
  quote or a character that is neither white space nor a comma. The model
  states this property of the regex as `TokenizerOk`.
- A field past the end of the token list is `undefined` (`None`). This matters
  for `searchAirports`. When an airport row has exactly three tokens, its name
  is `undefined`, and `airport.name.toUpperCase()` throws a TypeError. It is
  reached only when the ICAO and IATA codes do not match and fewer than five
  matches have been found. The model returns `Err(TypeError)` in that case.
- The corridor half-width `1` is commented as degrees. It is compared with a
  cross-track distance in nautical miles, so the model compares it with the
  nautical-mile value, as the code does.

Behaviour of the code that the model keeps:

- Rows with a non-numeric latitude or longitude are stored, with NaN.
- An airport is kept on its type alone, without a test that its ICAO code is
  non-empty.
- Waypoints at equal distances keep catalogue order, because the built-in sort
  is stable. There is no tie-break by identifier.
- No special case exists for origin equal to destination. A route of at most
  100 nm has no waypoints, because no distance can lie strictly between 50
  and `total - 50`.
- `drawRoute` builds the polyline only. It does not sum leg distances.

## Model

| member | source | states |
|---|---|---|
| `JsStrings.SplitLines` | flightplan.js:45 | `split('\n')` gives at least one piece, no piece holds a line feed, and joining the pieces with line feeds gives back the text |
| `JsStrings.SplitJoin` | flightplan.js:45 | the other round trip: splitting the line-feed join of line-feed-free pieces gives back the pieces |
| `JsStrings.SplitAfterFirstLine` | flightplan.js:45 | the lines of `head + "\n" + rest` are `head` followed by the lines of `rest` |
| `JsStrings.Trim` | flightplan.js:47 | `trim()` leaves no white space at either end, and it cuts only white space from around a contiguous piece of the input |
| `JsStrings.TrimEmpty` | flightplan.js:47 | a row trims to the empty string exactly when every character is white space; such rows are the ones skipped |
| `JsStrings.StripQuotes` | flightplan.js:58 | `replace(/"/g, '')` leaves no double quote, keeps every other character with its multiplicity, and changes nothing in quote-free text |
| `JsStrings.StripQuotesAppend` | flightplan.js:58 | removing quotes works piece by piece: the result for `a + b` is the result for `a` followed by the result for `b`, so the kept characters stay in order |
| `JsStrings.StripQuotesChar` | flightplan.js:58 | on one character, a quote is dropped and any other character is kept; with the previous row this fixes the result exactly |
| `JsStrings.CleanField` | flightplan.js:58 | every cleaned field has no double quote and no leading or trailing white space; cleaning a clean field changes nothing |
| `JsStrings.IncludesIffOccurs` | flightplan.js:363-366 | `includes` holds exactly when the query occurs at some offset of the text |
| `OrderedMaps.Put` | flightplan.js:78 | `Map.set` on a new key appends the entry; on an existing key it replaces that entry in place and leaves every other entry alone |
| `OrderedMaps.PutKeys` | flightplan.js:78 | after `set` the keys keep their order, and a new key is last |
| `OrderedMaps.PutGet` | flightplan.js:78 | `get` after `set` returns the new value for that key and the old binding for every other key |
| `OrderedMaps.PutUnique` | flightplan.js:78 | `set` never stores a key twice |
| `Geodesy.DivBy` | flightplan.js:67 | `parseInt(frequency_khz) / 1000` is NaN exactly when the parsed value is, and otherwise is the value divided by 1000 |
| `Catalogue.ParseNavaidRow` | flightplan.js:46-77 | a navaid row yields a record exactly when it is not blank, tokenizes, and has a cleaned type in {VOR, DME, NDB, VORDME, VOR-DME}; the record is keyed by the cleaned third token, all its strings are clean, and an empty DME channel becomes null |
| `Catalogue.NavaidOf` | flightplan.js:52-76 | the record destructured from a row's cleaned values has the kept type, the cleaned third value as its ident, only clean strings, and `null` rather than an empty DME channel |
| `Catalogue.ParseAirportRow` | flightplan.js:160-183 | an airport row yields a record exactly when it tokenizes and its cleaned type is `large_airport` or `medium_airport`; `icao` is the cleaned `ident` token and all strings are clean |
| `Catalogue.AirportOf` | flightplan.js:163-183 | the record destructured from a row's cleaned values has a large or medium type, the cleaned `ident` as its ICAO code, and only clean strings |
| `Catalogue.IngestKeys` | flightplan.js:46-81 | after loading, the keys are the old keys followed by each newly seen identifier in first-occurrence order; a key repeated later never moves |
| `Catalogue.IngestGet` | flightplan.js:46-81 | last write wins: each key maps to the record of the last row that yields it, and a key no row yields keeps its old value |
| `Catalogue.IngestKeeps` | flightplan.js:46-81 | loading keeps every entry under its own record's key with no key repeated, and every stored record satisfies any property all parsed rows satisfy |
| `Catalogue.IngestConcat` | flightplan.js:46-81 | loading rows in two batches equals loading them together |
| `Catalogue.IngestSkips` | flightplan.js:47-50 | a row that yields no record (blank, untokenizable or of another type) changes nothing, wherever it stands |
| `Catalogue.BlankNavaidRowSkipped` | flightplan.js:47 | a blank row in the navaid file adds nothing, wherever it stands |
| `Catalogue.BlankAirportRowSkipped` | flightplan.js:162-163 | a blank row in the airport file adds nothing, wherever it stands, given that the token regex finds no match in it |
| `Catalogue.AddRowKeeps` | flightplan.js:46-81 | one row through the callback keeps the map well keyed with no repeated key, and keeps any property of the records that the row's record also has |
| `Catalogue.NavaidRowKeepsStore` | flightplan.js:61-78 | one row through the navaid callback keeps the navaid map keyed by `ident`, with only kept types and clean fields |
| `Catalogue.AirportRowKeepsStore` | flightplan.js:172-183 | one row through the airport callback keeps the airport map keyed by ICAO code, with only large and medium airports and clean fields |
| `Catalogue.HeaderSkipped` | flightplan.js:45 | the first line is never ingested: the data rows of `head + "\n" + rest` are exactly the lines of `rest`, and a one-line file has none |
| `Catalogue.NavaidIngestKeepsStore` | flightplan.js:61-78 | the navaid map stays keyed by `ident`, with only the five kept types and clean fields |
| `Catalogue.AirportIngestKeepsStore` | flightplan.js:172-183 | the airport map stays keyed by ICAO code, with only large and medium airports and clean fields |
| `AirportSearch.Test` | flightplan.js:363-366 | an airport matches when the ICAO code, a non-empty IATA code, the upper-cased name or a non-empty upper-cased city contains the query; the test throws exactly when the name is undefined and neither code matches |
| `AirportSearch.ThrowsEarlyStep` | flightplan.js:359-369 | scanning one more airport throws exactly when an earlier one did, or this one throws while fewer than five matches are held |
| `AirportSearch.NamedCatalogueNeverThrows` | flightplan.js:365 | when every airport has a name, the search cannot throw |
| `AirportSearch.MatchingMembers` | flightplan.js:363-367 | an airport is among the matches exactly when it is in the catalogue and passes the test |
| `AirportSearch.LargeAirports` | flightplan.js:409 | the filter keeps exactly the catalogue's `large_airport` entries |
| `Corridor.CandidatesMembers` | flightplan.js:461-495 | a waypoint is among the candidates exactly when its navaid is in the catalogue, has type VOR, VOR-DME or VORDME, has a cross-track distance within ±1, lies strictly between 50 nm from the origin and 50 nm short of the destination, and carries that distance |
| `Corridor.ShortRouteNoCandidates` | flightplan.js:487-488 | when the route is at most 100 nm long, or its length is NaN, no navaid qualifies |
| `Corridor.Insert` | flightplan.js:498 | inserting adds exactly one waypoint: the result's multiset is the old one plus `x` |
| `Corridor.InsertSorted` | flightplan.js:498 | inserting into a sorted list keeps it sorted by distance |
| `Corridor.InsertKeepsOrder` | flightplan.js:498 | an inserted waypoint goes after every waypoint at its own distance |
| `Corridor.SortByDistance` | flightplan.js:498 | the sorted list is non-decreasing by distance and is a permutation of its input |
| `Corridor.SortIsStable` | flightplan.js:498 | the sort is stable: at every distance the waypoints keep their input order |
| `Corridor.StableSortUnique` | flightplan.js:498 | two lists that are sorted by distance and agree on the order at every distance are equal |
| `Corridor.StableSortIsSortByDistance` | flightplan.js:498 | any stable sort by distance gives exactly `SortByDistance`, so the choice of stable algorithm does not matter |
| `Corridor.RouteCoords` | flightplan.js:425-429 | the polyline has two points more than there are waypoints: the origin first, the destination last, and the waypoint positions in order between them |
| `Corridor.ShortRouteIsDirect` | flightplan.js:422-429 | a route of at most 100 nm, or of NaN length, is drawn as exactly `[origin, destination]` |
| `FlightPlan.FlightPlanner.constructor` | flightplan.js:2-10 | a new planner has empty catalogues, no route line, and satisfies the catalogue invariant |
| `FlightPlan.FlightPlanner.LoadNavaidRow` | flightplan.js:46-81 | the `forEach` callback for one row: the navaid map gains, by `set`, the record the row yields, and is unchanged when it yields none |
| `FlightPlan.FlightPlanner.LoadNavaids` | flightplan.js:45-81 | the navaid map becomes the old map with every data row after the header folded in by `set`, and the catalogue invariant holds after every row |
| `FlightPlan.FlightPlanner.LoadAirportRow` | flightplan.js:160-185 | the `forEach` callback for one row: the airport map gains, by `set`, the record the row yields, and is unchanged when it yields none |
| `FlightPlan.FlightPlanner.LoadAirports` | flightplan.js:159-185 | the airport map becomes the old map with every data row after the header folded in by `set`, and the catalogue invariant holds after every row |
| `FlightPlan.FlightPlanner.SearchAirports` | flightplan.js:355-372 | the result is the first min(5, k) matching airports in insertion order, for the upper-cased query; it is a TypeError exactly when the scan reaches a throwing airport while fewer than five matches are held |
| `FlightPlan.FlightPlanner.NearbyAirports` | flightplan.js:406-411 | at most five airports, all `large_airport` and all from the catalogue, forming a prefix of the catalogue's large airports in insertion order; five unless there are fewer |
| `FlightPlan.FlightPlanner.FindRouteWaypoints` | flightplan.js:450-499 | the result is sorted by distance from the origin. It is a permutation of the qualifying navaids, stable for ties. A waypoint is in it exactly when its navaid is in the catalogue, passes the three tests, and carries its distance |
| `FlightPlan.FlightPlanner.DrawRoute` | flightplan.js:413-429 | the route line becomes origin, the route's waypoints in order, then destination |

## Left out

- Catalogue.BlankAirportRowSkipped: the token regex is a parameter. That a
  blank row has no match is assumed (`TokenizerOk`), not derived from the
  regex.
- Haversine distance, initial bearing, the cross-track formula and `toRad`
  (flightplan.js:309-325, 501-546) are floating-point trigonometry. They are
  fields of the `Earth` parameter. Symmetry, the triangle inequality and the
  bearing range are not modelled.
- The route bearing computed at the start of `findRouteWaypoints` is never
  used, so it is not modelled.
- `Num` has no infinities. A haversine distance is bounded, so none can reach
  the comparisons.
- The CSV token regex, `parseInt`, `parseFloat` and `toFixed(3)` are fields of
  the `Runtime` parameter. No property depends on field positions inside a row:
  the regex drops empty fields, which shifts the positional destructuring.
- `JsStrings.Upper` maps only ASCII letters. Full Unicode case mapping, which
  can change a string's length, is not modelled.
- `fetch`, `async init`, `Promise.all`, the `try`/`catch` around loading and
  `console.log` are I/O. The loaders take the file text as a parameter.
- Leaflet and DOM code is UI and not modelled: `initMap`, `addNavaidMarker`,
  the icon and popup builders, `updateMap`, `showAirportDropdown`,
  `setupEventListeners`, `updateAirportInfo`, `toggleNavaidVisibility`, and the
  marker and `fitBounds` parts of `drawRoute`. `DrawRoute` takes the origin and
  destination coordinates as parameters instead of reading them from the markers.
- `updateFlightInfo` is not modelled. It calls the four-argument
  `calculateDistance` with two arguments, because the later definition
  replaces the earlier one.
- `generateSimBriefLink` reads form inputs and opens a window. It is not
  modelled.
- script.js (slideshow, network polling) and tracker.js (live flight map) are
  not part of this model.
- `FlightPlan.FlightPlanner.FindRouteWaypoints`: `Array.prototype.sort` is a
  built-in, written here as a stable insertion sort (`SortByDistance`).
  `StableSortIsSortByDistance` shows that every stable sort gives the same
  result, so no behaviour is lost.
- The catalogue `Map`s are `seq` fields that the methods reassign. The records
  are immutable values, so aliasing between the `Map` and the search results
  is not modelled.
