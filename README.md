# Flight-selection engine, modelled in Dafny

The flight-search widget keeps its logic in one state container: `FlightProvider`
in `src/context/FlightContext.tsx`. The container holds these values:

- the loaded `flights`;
- a loading flag;
- the search text `searchAirport`;
- the airport suggestions derived from that text;
- the `selectedFlights`, which stay `undefined` until an airport is chosen;
- a per-key `sortState` that records the last direction applied to `date` and to `expectedTime`.

This project models that engine and proves what it promises:

- **Suggestions.** A query shorter than three characters gives no suggestions. A query of three or more characters gives every airport of the loaded flights that contains the query, compared in lower case. Each airport appears once, in the order in which it first appears among the flights.
- **`selectAirport`.** It clears the query. It keeps the flights whose airport equals the argument exactly. It sorts them stably by expected time and keeps the first five. It marks both keys ascending.
- **`sortFlightResults`.** It does nothing when there is no selection. Otherwise it sorts the selection stably by date or by time. Ascending uses the key difference as the comparator; descending uses its negation. It overwrites only that key's entry in `sortState`.

Layout:

- `wrappers.dfy`: `Option`, the stand-in for `undefined`.
- `flights.dfy`: the following items.
  - The `Flight` record, with date and expected time held as integer keys.
  - Sort keys, directions and `SortState` with its one-key update.
  - The comparator.
  - The `toggleSort` rule of the flight list.
  - `ParseClock`, the `HH:MM` parser that stands for `parseTimeToMs`.
- `stable_sort.dfy`: a stable insertion sort by an integer rank.
  - ECMAScript 2019 (section 22.1.3.27, `Array.prototype.sort`) requires `Array.prototype.sort` to be stable.
  - The file proves that the sort is ordered, a permutation and stable.
  - It also proves that any ordered, stable rearrangement equals the sort's result. So the choice of algorithm does not matter.
  - Stability is stated with *tiers*: the subsequence of elements of one rank.
- `airport_search.dfy`: the suggestion derivation, a pure function of `(searchAirport, flights)`.
- `selection.dfy`: the filter, sort and slice pipelines of `selectAirport` and `sortFlightResults`.
- `flight_context.dfy`: the class `FlightProvider`.
  - It holds the provider's fields.
  - Its constructor sets the initial state.
  - Its methods are the load completion, `setSearchAirport`, `selectAirport` and `sortFlightResults`.
  - Each method is one batched state update.
- `scenarios.dfy`: scenarios on the mock data of `src/context/FlightContext.spec.tsx`, as lemmas and one method.
  - Six Dublin departures are selected, capped at five and re-sorted.
  - `MockSession` is a session composed of the test suite's steps, run on one provider.
  - A search over airports that differ only in case exercises the exact-equality `Set` of `src/context/FlightContext.tsx:52`. This search is not one of the tests.

Behaviour of the code worth noting:

- **Dedup is case-sensitive.** The duplicate airports are removed by a JavaScript `Set`, which compares exactly. So "Dublin" and "DUBLIN" are both suggested for "dub" (`Scenarios.CaseVariantsBothSuggested`). Only the substring match ignores case.
- **Descending is not a reverse.** Descending order comes from the negated comparator. Flights with equal keys keep their order in both directions (`Selection.DescendingKeepsTies`). It equals the reverse of ascending only when no two keys are equal (`Selection.DescendingReversesDistinctKeys`).
- **An empty selection still updates `sortState`.** An empty selection `[]` is truthy, so `sortFlightResults` on it still rewrites its key in `sortState`.
- **A failed load raises no error flag.** The load only logs the error. Loading ends with `flights` unchanged, and no error value is kept.

## Model

| member | source | states |
|---|---|---|
| `FlightContext.FlightProvider.constructor` | src/context/FlightContext.tsx:25-33 | Initial state: `flights` is empty, there is no selection, loading is true, the query is empty, `sortState` has no entries, and there are no suggestions. |
| `FlightContext.FlightProvider.FilteredAirports` | src/context/FlightContext.tsx:29 | The `filteredAirports` state, derived from the query and `flights`. It is empty for a query shorter than three characters, and every entry matches the query. The full result is stated by `AirportSearch.FilteredAirportsCorrect`. |
| `FlightContext.FlightProvider.CompleteLoad` | src/context/FlightContext.tsx:36-46 | After the load, loading is false. `flights` is the fetched list on success and keeps its old value on failure. Nothing else changes. |
| `FlightContext.FlightProvider.SetSearchAirport` | src/context/FlightContext.tsx:50-59 | Stores the query as typed. A query shorter than three characters leaves no suggestions. The other fields are unchanged. |
| `FlightContext.FlightProvider.SelectAirport` | src/context/FlightContext.tsx:82-96 | The query is cleared, so there are no suggestions. The selection is present and holds only flights of that airport taken from `flights`. Its length is min(5, number of matches). It is non-decreasing by time. Both keys are marked ascending. `flights` and the loading flag are unchanged. |
| `FlightContext.FlightProvider.SortFlightResults` | src/context/FlightContext.tsx:65-80 | With no selection, nothing changes, `sortState` included. Otherwise the new selection is a permutation of the old one, ordered by the key's rank and stable. `sortState` changes only at that key. `flights`, the query and the loading flag are unchanged. |
| `Flights.SortState.With` | src/context/FlightContext.tsx:75-78 | The spread update sets the chosen key to the new direction and leaves the other key as it was. |
| `Flights.Compare` | src/context/FlightContext.tsx:68-73 | The comparator is the difference of ranks. It is negative exactly when the first key is smaller (ascending) or larger (descending). |
| `Flights.ToggleOrder` | src/components/FlightList.tsx:9-13 | An unset key becomes ascending. A set direction flips. |
| `Flights.ParseClock` | src/context/FlightContext.tsx:61-63 | A value is produced exactly for well-formed `HH:MM` text, and it is a minute of the day (below 1440). |
| `Flights.ParseFormatClock` | src/context/FlightContext.tsx:61-63 | Formatting any minute of the day and parsing it back gives that minute. |
| `Flights.FormatParseClock` | src/context/FlightContext.tsx:61-63 | Parsing well-formed `HH:MM` text and formatting it back gives the same text, so distinct times get distinct keys. |
| `Flights.ClockOrderIsTextOrder` | src/context/FlightContext.spec.tsx:143-145 | On `HH:MM` strings, the parsed minutes are ordered exactly as the strings are in code-unit order. So the tests' plain string sort agrees with the time key. |
| `StableSort.Sort` | src/context/FlightContext.tsx:68-73 | Keeps the length. Its full behaviour (ordered, a permutation, stable, and the only such result) is stated by `StableSort.SortSortedPermutation`, `StableSort.SortStable` and `StableSort.StableSortUnique`. |
| `StableSort.SortSortedPermutation` | src/context/FlightContext.tsx:68-73 | The sort's result is non-decreasing by rank and has the same multiset of elements as the input. |
| `StableSort.SortStable` | src/context/FlightContext.tsx:68-73 | The sort is stable: elements of equal rank keep their relative order. |
| `StableSort.StableSortUnique` | src/context/FlightContext.tsx:68-73 | Any rearrangement that is ordered by rank and stable equals the sort's result. So every stable `Array.prototype.sort` gives what the model gives. |
| `StableSort.SortedFixpoint` | src/context/FlightContext.tsx:86-91 | An input already ordered by rank comes back unchanged. |
| `AirportSearch.Distinct` | src/context/FlightContext.tsx:52 | Never longer than its input. Which values it keeps, and in what order, is stated by `AirportSearch.DistinctMembers` and `AirportSearch.DistinctOrdered`. |
| `AirportSearch.DistinctMembers` | src/context/FlightContext.tsx:52 | The deduplicated airport list holds exactly the airports of the flights. |
| `AirportSearch.DistinctOrdered` | src/context/FlightContext.tsx:52 | The deduplicated list is in order of first occurrence, so no airport appears twice. |
| `AirportSearch.KeepMatching` | src/context/FlightContext.tsx:53 | An airport is kept exactly when it is in the input and contains the query, both compared in lower case. |
| `AirportSearch.KeepMatchingOrdered` | src/context/FlightContext.tsx:53 | Filtering keeps the order of first occurrence. |
| `AirportSearch.FilteredAirports` | src/context/FlightContext.tsx:50-59 | A query shorter than three gives no suggestions, and every suggestion matches the query. Membership, uniqueness and order are stated by `AirportSearch.FilteredAirportsCorrect`. |
| `AirportSearch.FilteredAirportsCorrect` | src/context/FlightContext.tsx:50-59 | A query shorter than 3 gives no suggestions. Otherwise an airport is suggested exactly when some flight has it and it matches the query. Suggestions have no duplicates and follow the order of first occurrence among the flights. |
| `Selection.FlightsFor` | src/context/FlightContext.tsx:84 | Each flight of the airport is kept with its full multiplicity. Flights of other airports are dropped. Airports are compared by exact equality. |
| `Selection.SortFlights` | src/context/FlightContext.tsx:68-73 | Keeps the length. The permutation, the order in each direction and stability are stated by `Selection.SortFlightsCorrect` and `Selection.SortFlightsUnique`. |
| `Selection.SortFlightsCorrect` | src/context/FlightContext.tsx:68-73 | Re-sorting is a permutation. The result is non-decreasing by the key for ascending and non-increasing for descending. Flights with equal keys keep their prior relative order. |
| `Selection.SortFlightsUnique` | src/context/FlightContext.tsx:68-73 | Any ordered, stable rearrangement of a selection is what `sortFlightResults` produces. |
| `Selection.SelectFlights` | src/context/FlightContext.tsx:84-92 | Holds at most five flights. Which flights, in what order, are stated by `Selection.SelectFlightsMembers`, `Selection.SelectFlightsSorted`, `Selection.SelectFlightsEarliest` and `Selection.SelectFlightsStable`. |
| `Selection.SelectFlightsMembers` | src/context/FlightContext.tsx:84-92 | Selected flights are flights of `flights` at that airport, taken from the matches. The count is min(5, number of matches). With no match the selection is `[]`. |
| `Selection.SelectFlightsSorted` | src/context/FlightContext.tsx:86-91 | The selection is non-decreasing by expected time. |
| `Selection.SelectFlightsEarliest` | src/context/FlightContext.tsx:86-92 | Every matching flight left out is no earlier than any flight kept. |
| `Selection.FlightsForAppend` | src/context/FlightContext.tsx:84 | Filtering a concatenation is the concatenation of the filtered parts, so the filter keeps the order of `flights`. |
| `Selection.FlightsForTier` | src/context/FlightContext.tsx:84 | The flights of one time (or date) among the kept ones are the kept flights among those of that time, in the order of `flights`. |
| `Selection.SelectFlightsStable` | src/context/FlightContext.tsx:84-92 | Flights with the same time appear in the order of `flights`. They are the first such flights of that airport: each time group of the selection is a prefix of the airport's flights at that time, taken in list order. |
| `Selection.DescendingKeepsTies` | src/context/FlightContext.tsx:72 | Two different flights with equal time stay in input order under the descending sort. The reverse of the ascending sort swaps them. |
| `Selection.DescendingReversesDistinctKeys` | src/context/FlightContext.tsx:72 | When no two flights share the key, the descending sort is the reverse of the ascending sort. |
| `Scenarios.SelectIncreasing` | src/context/FlightContext.spec.tsx:126-155 | If all flights are of the airport and listed in strictly increasing time, the selection is the first five. |
| `Scenarios.DescendingTimeReversesIncreasing` | src/context/FlightContext.spec.tsx:206-215 | Flights in strictly increasing time, sorted by time descending, come out reversed. |
| `Scenarios.DateSortOneDay` | src/context/FlightContext.spec.tsx:166-190 | Flights of one date are left unchanged by a date sort in either direction. |
| `Scenarios.SelectThenResort` | src/context/FlightContext.spec.tsx:158-216 | Take six same-day flights of one airport in increasing time. The selection is the first five, the time-descending sort reverses them, and a following date sort keeps that order. |
| `Scenarios.MockSession` | src/context/FlightContext.spec.tsx:158-216 | A session composed of the test suite's steps, on the mocked flights: load, search, select Dublin, sort by time descending, then sort by date ascending. The times are 21:45, 21:40, 18:35, 17:15, 16:00. `sortState` is date ascending and time descending. The query is empty and loading is over. |
| `Scenarios.CaseVariantsBothSuggested` | src/context/FlightContext.tsx:52-53 | For "dub" over airports "Dublin", "DUBLIN" and "Paris", the suggestions are exactly "Dublin" then "DUBLIN". |

## Left out

- The fetch itself, in `src/services/fetchFlights.ts`, is not modelled. It is a network request plus a JSON parse. Its outcome is the `Option` argument of `CompleteLoad`.
- A response whose JSON has no `flights` field is not modelled. The source would store `undefined` in that case.
- React mechanics are not modelled: `useState` batching, effect scheduling and context creation.
  - In the source, `filteredAirports` is state that an effect recomputes after each change. The model makes it a function of the current query and flights, so the render in which it lags behind is not represented.
- The `useFlights` guard (`src/context/FlightContext.tsx:117-125`) is not modelled. It throws outside a provider, and the model has no provider-less state.
- `console.error` on a failed load is not modelled. It is logging only.
- Dates are held as day numbers. Parsing ISO dates with `new Date(...)` is library behaviour and is not modelled.
- Flights.ParseClock: it accepts only `HH:MM` with hours 00–23 and minutes 00–59.
  - It does not model `24:00`, seconds, or time-zone suffixes.
  - It does not model the `NaN` comparator results for malformed strings. With those results the sort order is implementation-defined.
  - `parseTimeToMs` gives milliseconds offset by the local time zone. The model uses minutes, which give the same order.
- AirportSearch.Matches: lower-casing is modelled for ASCII letters only. `String.prototype.toLowerCase` applies full Unicode case mapping.
- String lengths count characters, not UTF-16 code units. This matters only for the three-character threshold on non-BMP text.
- The display-only flight fields are kept as opaque strings. The uniqueness of `flightIdentifier` is neither enforced by the source nor modelled.
- The rendering components are not modelled: `Searchbar`, `FlightList`, `FlightDetails`, `Button`, `Home` and `App`. The one exception is the `toggleSort` rule, modelled as `ToggleOrder`. The styling configuration is not modelled either.
